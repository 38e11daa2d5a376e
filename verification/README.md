# Verification of the mruby UEFI runtime

Dafny models of the hard parts of the mruby-on-UEFI repository, with proofs about them.

* **Array#pack and String#unpack** (`src/ext/pack.c`). The codecs (`Base64`, `ForeignBytes`, `Hex`,
  `Integers`, `PaddedString`), the template parser (`Template`, `TemplateText`), the growing result
  string (`PackBuffer`, `BufferRuns`), the two interpreters (`Pack`, `Unpack`), and what they promise
  together (`PackUnpack`, `Base64Calls`, `IntegerFields`, `UnpackFields`, `Letters`). The loops are
  methods over arrays, buffers and indices, each proved against a specification function. The lemmas
  then tie those functions to section 4 of RFC 4648 (down to the bits and the literal alphabet), to
  the line structure of section 6.8 of RFC 2045, to two's complement, and to each other.
* **Struct layout and typed memory** (`mrblib/protocol.rb`, `src/uefi_protocol.c`). `Layout` is the
  class-level builder; `LayoutProperties` proves its placement legal and least; `TypedMemory` is the
  typed access to bytes; `StructRecord` proves that a struct in memory behaves, over every run of
  gets and sets, as a record of independent fields.
* **GUIDs** (`mrblib/guid.rb`, with `mrblib/00_enum.rb`). `Guid` is the class, `GuidText` proves that
  reading and printing undo each other; `Slices` is `each_slice` and `each_cons`.
* **Variable enumeration** (`src/uefi_runtime_service.c`, `src/uefi_misc.c`). `Variables` is the
  retry-and-grow loop against a firmware that holds a list of variables; `Names` is the conversion
  of names.

`Bytes` holds the C integer conversions that all of them share.

## Where the code does less than it seems to promise

The model follows the code. Where an expected property is false of it, the exact condition under
which it holds is proved instead.

* `m` writes more than it reserves whenever the last group is padded, or the last line is full
  (`Base64.PackedLength`, `Base64.ReservationCovers`). Whether a `pack` call then stores past the end
  of its buffer is decided by lengths and counts: for every array and template by
  `BufferRuns.CallFate`, for lists of strings under `m` by `Base64Calls.PackedTexts`, and for one
  string by `Base64Calls.Base64RoundTrip`. `Base64Calls.NinetyFourBytesOverrun` and
  `Base64Calls.TwoStringsOverrun` are inputs that do.
* Strings packed one after the other with `m` come back only if each one before a non-empty one has a
  length that is not divisible by three (`Base64Calls.ListRoundTrip`).
* `unpack` with `m` takes a byte of 128 or more for an old digit when it follows a symbol
  (`ForeignBytes.IgnoredExactly`, and `Base64.NonAsciiByteIsNotIgnored` for one input).
* `s`, `S` and `n` store a wrong high byte for a negative 16-bit value with a low byte, and `l` is
  negated on reading where `long` is wider than `int` (`Integers.PackedIntIsTwosComplement`,
  `Integers.IntRoundTrip`).
* Every directive of `pack` starts over at element 0 (`PackUnpack.TemplatesStartOver`,
  `IntegerFields.SecondDirectiveStartsOver`), and base64 with `*` never ends in `unpack`
  (`PackUnpack.Base64StarNeverEnds`).
* `start_with?` is equality, so a GUID in braces is not read (`Guid.StartsWithIsEquality`,
  `GuidText.BracedIsRejected`).
* The size and the alignment of a struct are remembered, and go stale when members are added
  (`LayoutProperties.RememberedSize`, `LayoutProperties.StaleSize`, `LayoutProperties.StaleAlignment`).

## Model

| member | source | states |
|---|---|---|
| Base64.TableUndoesChar | src/ext/pack.c:68-69 | decoding the character of a six-bit digit gives the digit |
| Base64.CharIsOfAlphabet | src/ext/pack.c:68-69 | the character of every digit is the one at its place in the literal alphabet |
| Base64.AlphabetIsSymbols | src/ext/pack.c:93-107 | every character of the literal alphabet is a symbol and stands for its place, and code 61 is a symbol |
| Base64.OnlySymbols | src/ext/pack.c:93-107 | no other byte is a symbol |
| Base64.MakeBase64DecTab | src/ext/pack.c:93-107 | the three filling loops and four assignments leave, for every ASCII byte, its digit, the padding mark for `=`, and the ignore mark otherwise |
| Base64.EncodeRegroupsBits | src/ext/pack.c:407-433 | the encoding is the bit string of the input cut into six-bit digits, zero bits completing the last one, with two, one or no `=` |
| Base64.PackGroup | src/ext/pack.c:407-412 | three bytes through the 24-bit accumulator become the four characters of their bits |
| Base64.PackTail | src/ext/pack.c:420-434 | the one or two bytes left over become two or three characters and the padding |
| Base64.Normalise | src/ext/pack.c:390-395 | the line length becomes 45 bytes by default and otherwise the largest multiple of three not above the count; 0 stays 0 |
| Base64.LineLength | src/ext/pack.c:390-395 | literally: 45 bytes for `*`, 1 and 2, no lines for 0, else the multiple of three within three below the count |
| Base64.Reserve | src/ext/pack.c:390-400 | the space reserved is four bytes for each whole group and one for each line begun |
| Base64.PackM | src/ext/pack.c:376-440 | for every input and count the column loop writes the encoding in lines of the normalised length, each ended by a newline, with one empty line more when the input fills its last line |
| Base64.PackedTextIsEmit | src/ext/pack.c:404-437 | the column counter that is reset to 0 and stepped to 3 by the loop header breaks lines exactly where lines of the RFC 2045 structure end |
| Base64.LineFeeds | src/ext/pack.c:413-437 | code 10 stands after every full line and at the end of a text in lines, and nowhere else |
| Base64.PackedLength | src/ext/pack.c:390-439 | the text is 4*ceil(n/3) bytes long, plus n/count + 1 newlines, and exceeds the reservation by 4, 1 or 0 |
| Base64.TextHasLength | src/ext/pack.c:390-439 | the length of the text is a function of the length of the string and the count, the empty string included |
| Base64.ReservationCovers | src/ext/pack.c:396-402 | the reservation is enough if and only if no group is padded and the last line is not filled |
| Base64.PackedTextIsEncoding | src/ext/pack.c:404-439 | without its newlines the text is the RFC 4648 encoding, and all of it is ASCII |
| Base64.DecodeEncode | src/ext/pack.c:407-433 | the reference decoding undoes the encoding for every byte string, all tail lengths included |
| Base64.DecodeEncodeThen | src/ext/pack.c:476-490 | with further symbols after an encoding, decoding stops behind it if its last group is padded and reads on if it is not |
| Base64.ReadDigit | src/ext/pack.c:461-473 | the inner loop stops after the first byte that leaves a digit in its slot, with that digit, its padding and the place after it, or at the end of the input |
| Base64.ReadQuad | src/ext/pack.c:460-474 | four digits are read into the four slots with their padding counted, unless the input ends first |
| Base64.StoreGroup | src/ext/pack.c:478-490 | three, two or one bytes of the accumulator are stored, by the padding, and nothing before them changes |
| Base64.GroupYields | src/ext/pack.c:476-490 | any four symbols decode to the bytes of their 24-bit number, two of them after one `=` and one after more, for all slot contents |
| Base64.UnpackLoop | src/ext/pack.c:459-491 | the loop over groups stores exactly the decoded bytes, stays within the buffer estimated from the raw length, and reports the bytes it consumed |
| Base64.UnpackM | src/ext/pack.c:442-496 | for any bytes and any uninitialised slots the decoder yields the specified bytes and consumption, at most slen/4*3 bytes |
| Base64.UnpackedBound | src/ext/pack.c:453-495 | every three bytes written are paid for by at least four consumed ones, so output <= consumed/4*3 <= slen/4*3 |
| Base64.UnpackIgnoresForeign | src/ext/pack.c:459-490 | the output is that of the reference decoder on the subsequence of symbols, whatever foreign bytes stand between them, for all ASCII and every other harmless input, despite the raw length guard |
| Base64.UnpackLeavesRemaining | src/ext/pack.c:459-496 | where the decoder stops, exactly the symbols after its last group are left for the next one |
| Base64.RoundTrip | src/ext/pack.c:376-496 | for every byte string, line length and slot contents, unpacking the packed text returns the string |
| Base64.NonAsciiByteIsNotIgnored | src/ext/pack.c:466-473 | a concrete input on which a byte of 200 is read as the digit four symbols before it |
| ForeignBytes.ReadsSymbolExactly | src/ext/pack.c:461-473 | reading a digit gives the next symbol and leaves the others if and only if no byte of 128 or more meets a digit in the slot |
| ForeignBytes.UnpackedCount | src/ext/pack.c:459-482 | before any `=`, three bytes come out for every four digits found, for all slot contents, a byte of 128 or more that meets a full slot counting as one |
| ForeignBytes.IgnoredExactly | src/ext/pack.c:459-490 | foreign bytes of a string without `=` have no effect, in all continuations and for all slot contents, if and only if those of 128 or more come right after foreign bytes |
| ForeignBytes.StrayBeforePadding | src/ext/pack.c:459-490 | after a `=` the condition is no longer about places: four symbols, a byte of 200 and `====` decode as if it were absent if and only if the first symbol stands for 0 |
| Hex.PackH | src/ext/pack.c:283-325 | every byte is made of its two digits in the nibble order asked for, zero digits standing in after the end; ceil(count/2) bytes, within the reservation |
| Hex.UnpackH | src/ext/pack.c:327-373 | every digit of the bytes in the nibble order asked for, at most count of them, reading ceil(digits/2) bytes |
| Hex.PackThenUnpack | src/ext/pack.c:283-373 | for any count, as many digits as were packed come back as the kept digits in lower case and zeros, if and only if those kept are hexadecimal digits |
| Hex.PackThenUnpackAll | src/ext/pack.c:283-373 | with `*` an odd number of packed digits comes back with one `0` more |
| Hex.UnpackThenPack | src/ext/pack.c:283-373 | packing the unpacked digits of any bytes returns the bytes, in both nibble orders |
| Hex.NibbleOrder | src/ext/pack.c:309-321 | `H` puts the first digit of a pair in the high nibble, `h` in the low one |
| Hex.DigitsByCode | src/ext/pack.c:80-91 | the digits of both cases by their literal characters, and the lower-case ones that are written |
| Hex.OtherCharacterIsZero | src/ext/pack.c:89-90 | every other character counts as 0 |
| Integers.OtherByteOrder | src/ext/pack.c:147-153 | big-endian bytes are the little-endian ones backwards, for every width |
| Integers.PackedIntIsTwosComplement | src/ext/pack.c:123-192 | the bytes stored are the two's complement of the number if and only if it is not a negative 16-bit value with a low byte |
| Integers.UnpackTwosComplement | src/ext/pack.c:131-215 | two's complement bytes read as the number wrapped to the width and sign, negated for a signed 32-bit one where `long` is wider |
| Integers.EveryStringIsLittleEndian | src/ext/pack.c:131-215 | every byte string is the two's complement of a number, so the reading above covers all inputs |
| Integers.UnpackOtherByteOrder | src/ext/pack.c:157-202 | reading backwards in the other byte order gives the same number |
| Integers.ShortBack | src/ext/pack.c:141-172 | what a 16-bit value reads back as, including the 256 gained by negative ones with a low byte |
| Integers.LongBack | src/ext/pack.c:174-215 | what a 32-bit value reads back as: its low 32 bits, negated where the code negates |
| Integers.IntRoundTrip | src/ext/pack.c:123-215 | for every width, order, sign and number, unpacking returns the number if and only if it is in the listed range |
| PaddedString.PackA | src/ext/pack.c:217-252 | the first count bytes, padded by the style up to the count; it reserves exactly what it writes |
| PaddedString.StrippedLength | src/ext/pack.c:267-275 | the loop keeps exactly the bytes before the blanks at the end |
| PaddedString.UnpackA | src/ext/pack.c:254-280 | at most count bytes of the source, less what the style drops |
| PaddedString.NulRoundTrip | src/ext/pack.c:217-280 | `a` with any count returns what the count keeps of the string, with its NUL padding |
| PaddedString.NulEndRoundTrip | src/ext/pack.c:217-280 | `Z*` returns every string; `Z` with any width drops one NUL, of its padding or, if there is none, of what the width keeps |
| PaddedString.SpaceRoundTrip | src/ext/pack.c:217-280 | `A` with any count returns what the count keeps without the blanks at its end, so all of it if and only if it has none there |
| PaddedString.FieldIsPassed | src/ext/pack.c:265-279 | the source index moves by the whole width of a field if and only if nothing is stripped from its end |
| PaddedString.FilledWith | src/ext/pack.c:226-249 | missing places are filled with code 32 by `A` and with code 0 by `a` and `Z`, after the whole string |
| PaddedString.BlanksByCode | src/ext/pack.c:273 | the bytes stripped by `A` are exactly the codes 0, 9 to 13 and 32 |
| PaddedString.FieldRead | src/ext/pack.c:254-280 | what is read from any source with any count: a prefix of the clamped field, all of it for `a`, less one NUL for `Z`, less exactly the blanks at its end for `A` |
| Template.SuffixEndUnique | src/ext/pack.c:596-625 | the end of a run of suffix characters is determined by its characters |
| Template.ModifiedSnoc | src/ext/pack.c:596-625 | what one more suffix character changes in a directive, for digits, `*` and modifiers |
| Template.Tmpl.constructor | src/ext/pack.c:499-504 | reading starts at the first character |
| Template.Tmpl.ReadNumber | src/ext/pack.c:598-603 | the digit loop reads the whole number and no more |
| Template.Tmpl.ReadTmpl | src/ext/pack.c:512-643 | the parser accepts or rejects as specified over the whole suffix run, moves past exactly that run, at least one character, and never past the end |
| TemplateText.CountOfDecimal | src/ext/pack.c:598-603 | reading the decimal text of any number gives the number |
| TemplateText.LastCount | src/ext/pack.c:595-615 | 1 without a suffix, -1 after a final `*`, the number after a final number, whatever stands before; modifiers do not count |
| TemplateText.DigitsByCode | src/ext/pack.c:598-603 | the value of every decimal digit by its literal character |
| TemplateText.ReadRendered | src/ext/pack.c:512-643 | a directive rendered as letter, modifiers and count is read back with its meaning, whatever surrounds it |
| TemplateText.ReadAllRendered | src/ext/pack.c:506-643 | reading the text of any list of valid directives, in any place, gives that list |
| TemplateText.ReadAllConcat | src/ext/pack.c:506-643 | for any two strings, reading them as one template is reading them one after the other, unless the second starts with a suffix character or the first is rejected |
| PackBuffer.GrowIsLeastDoubling | src/ext/pack.c:109-120 | the length reached is the least doubling that covers the request |
| PackBuffer.GrowTwice | src/ext/pack.c:109-120 | growing for two requests in turn is growing for the larger |
| PackBuffer.GrowStaysBelowTwice | src/ext/pack.c:109-120 | a string that grows stays below twice the length asked for |
| PackBuffer.CapacityIsLargest | src/ext/pack.c:109-120 | after any run of requests the capacity is that of the largest alone, in whatever order they came |
| PackBuffer.CopiedIsBounded | src/ext/pack.c:109-120 | over any run the old capacities at all growths sum to less than the final capacity |
| PackBuffer.Buffer.constructor | src/ext/pack.c:657-658 | an empty result of capacity 128 |
| PackBuffer.Buffer.Ensure | src/ext/pack.c:109-120 | the capacity is the least doubling of 128 for the largest of all requests so far, one reallocation copies exactly the string it replaces, and all of them together less than the capacity; the contents stay |
| PackBuffer.Buffer.DoubledUntil | src/ext/pack.c:113-116 | the doubling loop doubles at least once and stops at the first length that covers the request |
| PackBuffer.Buffer.Resized | src/ext/pack.c:117 | the longer string starts with the old one, every byte of which is copied once |
| PackBuffer.Buffer.Store | src/ext/pack.c:682-703 | bytes stored at the write index extend the contents and the index moves past them |
| PackBuffer.Buffer.Append | src/ext/pack.c:682-703 | reserve then store: one request for the length reached and the bytes it copies are recorded, and the contents are extended exactly when the bytes fit, which a sufficient reservation guarantees |
| Pack.PackBytes | src/ext/pack.c:682-703 | the bytes and reservation of one element under each directive |
| Pack.PutBytes | src/ext/pack.c:682-703 | storing them takes the buffer to the specified bytes and capacity, with one request for the length reached |
| Pack.PackElement | src/ext/pack.c:669-703 | one element is converted, rejected with TypeError without a request, or stored |
| Pack.PackDirective | src/ext/pack.c:665-707 | one directive runs over the array from element 0 until its count is used up, and makes the requests of the elements it reaches |
| Pack.PackTemplate | src/ext/pack.c:659-708 | the interpreter loop takes any buffer to the bytes and capacity, or the error, that the directives of the template give in order, and makes exactly their requests |
| Pack.PackArray | src/ext/pack.c:645-712 | the whole call returns the string, or raises the error, that the directives of the template give in order |
| BufferRuns.ProgramCapacity | src/ext/pack.c:657-708 | a run that succeeds ends with the capacity of its requests, which holds its bytes |
| BufferRuns.FinalCapacity | src/ext/pack.c:109-120 | for every array and template the final capacity is the least 128*2^k that covers every length asked for, holds the result, stays below twice the largest such length once it has grown, and exceeds all bytes copied by growths together |
| BufferRuns.ProgramEnd | src/ext/pack.c:657-712 | how a run over any buffer ends (within it, with an error, or past its end) follows from lengths and counts alone |
| BufferRuns.CallFate | src/ext/pack.c:645-712 | for every array and template, whether a call returns, raises TypeError, raises ArgumentError or stores past the end of its buffer follows from lengths and counts alone, and so does the length of the result |
| Unpack.UnpackLengthDirective | src/ext/pack.c:736-747 | one string directive yields one string and moves by what it read |
| Unpack.PushNils | src/ext/pack.c:751-753 | one nil for each value still asked for, none for `*` |
| Unpack.UnpackManyDirective | src/ext/pack.c:749-775 | the repeat loop yields the specified values and source index, with nils once the source is short |
| Unpack.UnpackString | src/ext/pack.c:714-779 | the whole interpreter returns what the directives give in order, raises ArgumentError, or is caught in base64 with `*` |
| PackUnpack.PackIntegers | src/ext/pack.c:665-707 | an integer directive appends the bytes of exactly the elements its count takes, across any number of buffer growths |
| PackUnpack.UnpackIntegers | src/ext/pack.c:749-775 | an integer directive reads back every number stored from its index on, then a nil for each one its count is short of |
| PackUnpack.IntegerArrayRoundTrip | src/ext/pack.c:645-779 | unpacking what a single integer directive packed, with any count, returns the elements the count takes and a nil for each one missing, if and only if every element taken is in the range of the directive, in either byte order |
| Base64Calls.PackTexts | src/ext/pack.c:665-707 | a base64 directive over any list of strings, on any buffer and with any count, stores their texts if and only if a recursive arithmetic condition on the lengths holds, and overruns its buffer otherwise |
| Base64Calls.PackedTexts | src/ext/pack.c:645-712 | the same for a whole call with one `m` directive |
| Base64Calls.Base64RoundTrip | src/ext/pack.c:645-779 | one string: the call stays in its buffer if and only if the length satisfies a closed condition, overruns it otherwise, and where it stays unpacking returns the string |
| Base64Calls.OverrunsAtDoubling | src/ext/pack.c:396-402 | the condition for one string fails if and only if some doubling of 128 covers the reservation but not the text |
| Base64Calls.NinetyFourBytesOverrun | src/ext/pack.c:396-437 | an input: any 94 bytes under `m` take 131 bytes where 127 are reserved, and overrun the first buffer |
| Base64Calls.TwoStringsOverrun | src/ext/pack.c:396-437 | an input: strings of 45 and 49 bytes each fit alone under every count they meet, and overrun together |
| Base64Calls.ReadCodes | src/ext/pack.c:749-775 | reading from any place whose symbols are the encodings of a list gives the list if and only if every string with a non-empty one after it has a length not divisible by three |
| Base64Calls.ListRoundTrip | src/ext/pack.c:645-779 | packing a list of strings with any `m` directive and unpacking as many returns the list under exactly that condition |
| IntegerFields.FieldsRoundTrip | src/ext/pack.c:645-779 | a template of any number of integer directives packs the prefix of the array each one counts, and unpacking with it returns the prefixes one after the other if and only if every directive keeps its own |
| IntegerFields.SecondDirectiveStartsOver | src/ext/pack.c:659-665 | an input: two elements under `CC` give the first one twice |
| PackUnpack.TemplatesStartOver | src/ext/pack.c:659-708 | for any two template strings of which the second does not continue a suffix, packing with both in one is packing the whole array with each and joining the strings, the first error counting, unless exactly one of the two ways overruns its buffer; without `m` neither does |
| PackUnpack.UnpackManyYields | src/ext/pack.c:749-775 | an integer directive yields its count of entries, numbers then nils, or floor(rest/size) for `*`, and moves past whole values only |
| PackUnpack.UnpackBase64Yields | src/ext/pack.c:749-775 | base64 with a count yields that many strings |
| PackUnpack.UnpackFillsTemplate | src/ext/pack.c:714-779 | unpacking gives a result if and only if the template is accepted and has no base64 with `*`; it then yields exactly the entries asked for, floor(rest/size) for an integer `*`, and the source index stays within the source |
| PackUnpack.Base64StarNeverEnds | src/ext/pack.c:749-775 | after any number of turns the repeat loop of base64 with `*` has not been left |
| PackUnpack.OtherLoopsEnd | src/ext/pack.c:749-775 | every other repeat loop has been left after one turn more than its count, or than the bytes left for `*` |
| PackUnpack.FirstFailure | src/ext/pack.c:729-775 | the first directive that cannot be run decides how unpacking fails: ArgumentError for a rejected modifier, no end for base64 with `*` |
| UnpackFields.ProgramMoved | src/ext/pack.c:729-775 | what any directives read does not depend on the bytes before the source index, only on those from it on |
| UnpackFields.TemplatesInTurn | src/ext/pack.c:714-779 | for any two template strings of which the second does not continue a suffix, unpacking with both in one gives what the first gives and then what the second gives on the bytes the first left |
| UnpackFields.FieldsSplit | src/ext/pack.c:736-747 | fields of bytes split any string back into the pieces it was joined from, in order, and reach its end |
| UnpackFields.FieldAfterBytes | src/ext/pack.c:736-747 | any string directive after a field of bytes reads from where that field ends |
| UnpackFields.FieldAfterInteger | src/ext/pack.c:736-775 | any string directive after an integer of any width, sign and order reads from the byte after it |
| Letters.IntegerLetter | src/ext/pack.c:533-629 | width, sign and byte order of each integer letter with any modifiers it takes: `<` is little-endian on every machine, else `>`, `n` and `N` are big-endian, else the machine decides |
| Letters.IntegerBytes | src/ext/pack.c:645-712 | packing one number with one letter and any modifiers gives its two's complement in that order (16-bit ones as stored by `pack_s`) |
| Letters.IntegerRead | src/ext/pack.c:714-779 | unpacking one value with one letter and any modifiers gives the number of its bytes in that order and sign, whatever follows them |
| Letters.LongBytes | src/ext/pack.c:174-192 | the four bytes of a 32-bit number, one by one, under `N`, `L>`, `L<` and `l<` |
| Letters.FloatBytes | src/ext/pack.c:670-672 | a Float is packed as its integer |
| Letters.WrongTypes | src/ext/pack.c:670-680 | numbers for string letters, strings for integer letters and other objects for any letter raise TypeError |
| Letters.ModifierAccepted | src/ext/pack.c:616-620 | each of the four modifiers is accepted after `s S i I l L` (and NUL) and rejected after every other letter |
| Letters.KnownLetter | src/ext/pack.c:516-592 | the letters that mean something are exactly the fourteen of the source |
| Letters.UnknownLetterIsSkipped | src/ext/pack.c:662-663 | any other letter packs nothing and reads nothing |
| Letters.StringLetter | src/ext/pack.c:523-591 | the form of each string letter: padding style or nibble order |
| Letters.StringBytes | src/ext/pack.c:645-712 | one string directive packs every string of an array, its count being the width of the first and one less for each that follows, down to nothing |
| Letters.StringRead | src/ext/pack.c:714-779 | unpacking with any string directive gives one string, and moves by its length after stripping or by the bytes whose digits were read |
| Types.NormalizedIsType | mrblib/protocol.rb:16-34 | a symbol is accepted if and only if it normalises to the symbol of a type |
| Types.SpellingsAgree | mrblib/protocol.rb:4-7 | the short and long names at one place of the two lists mean the same type of the table |
| Types.UnsignedTypes | src/uefi_protocol.c:284-295 | both symbols, type, size and alignment of the unsigned types, literally |
| Types.SignedTypes | src/uefi_protocol.c:284-295 | the same for the signed types |
| Types.OtherTypes | src/uefi_protocol.c:284-295 | the same for pointers, handles, status codes and booleans |
| Layout.RoundUpIsLeast | mrblib/protocol.rb:42 | the offset expression gives the least multiple of the alignment from the end of the last member on |
| Layout.PlacedNext | mrblib/protocol.rb:45-106 | every definition without an offset of its own keeps the members placed one right after the other |
| Layout.AddedIs | mrblib/protocol.rb:45-106 | what a definition adds, from the members before it and the setting alone: the smaller of setting and size as alignment, and the first multiple of it from the end of the last member, or the offset given |
| Layout.ProtocolClass.Inherited | mrblib/protocol.rb:9-14 | a subclass starts with no members and no setting |
| Layout.ProtocolClass.CalculateNextOffset | mrblib/protocol.rb:36-43 | 0 for the first member, else the rounded end of the last |
| Layout.ProtocolClass.AddMember | mrblib/protocol.rb:51-69 | a definition adds one member: the smaller of the setting and its size as alignment, and the first multiple of that from the end of the last member, or the offset given; members stay placed as long as none is given |
| Layout.ProtocolClass.DefineVariable | mrblib/protocol.rb:78-106 | a known type adds one such member of that type; an unknown one changes nothing |
| Layout.ProtocolClass.DefineFunction | mrblib/protocol.rb:45-76 | known types add one pointer member with the normalised signature, at the next offset or the one given; any unknown one changes nothing |
| Layout.ProtocolClass.Pack | mrblib/protocol.rb:108-113 | only nil, 1, 2, 4 and 8 are accepted, for the members that follow |
| Layout.ProtocolClass.Alignment | mrblib/protocol.rb:119-121 | the largest alignment, remembered once there is one |
| Layout.ProtocolClass.Size | mrblib/protocol.rb:115-117 | the size on the first call, and that same number ever after |
| LayoutProperties.PlacedStep | mrblib/protocol.rb:36-43 | each member is aligned and starts at the least such offset after the one before it |
| LayoutProperties.PlacedInOrder | mrblib/protocol.rb:36-106 | any two members are disjoint, in the order of their definitions |
| LayoutProperties.PlacementIsLeast | mrblib/protocol.rb:36-106 | of all assignments of aligned, ordered, disjoint offsets, this one is the least at every member |
| LayoutProperties.SizeIsLeast | mrblib/protocol.rb:115-121 | the size is the least multiple of the largest alignment that covers the last member |
| LayoutProperties.ArrayMembersAligned | mrblib/protocol.rb:115-121 | in an array of structs of that stride on an aligned base, every member of every element is aligned |
| LayoutProperties.ArrayElementsApart | mrblib/protocol.rb:115-121 | members of a later element come after all members of an earlier one |
| LayoutProperties.RememberedSize | mrblib/protocol.rb:115-121 | after any history of `alignment`, `size` and further definitions the remembered size is right if and only if it covers the last member and is a multiple of the largest alignment there is by then |
| LayoutProperties.StaleSize | mrblib/protocol.rb:115-117 | a size remembered before any number of further members is right if and only if they fit in the padding and it is a multiple of the new alignment |
| LayoutProperties.StaleAlignment | mrblib/protocol.rb:115-121 | a size first asked for with an alignment remembered earlier is right if and only if it is a multiple of the largest alignment |
| LayoutProperties.EmptySizeGoesStale | mrblib/protocol.rb:37 | the size 0 remembered for a class without members is right only as long as it has none |
| LayoutProperties.PackingIsMonotone | mrblib/protocol.rb:78-121 | a smaller setting never moves a member or the end later |
| LayoutProperties.FixedSetting | mrblib/protocol.rb:36-113 | under any fixed setting every member is aligned to the smaller of the setting and its size, at the first such offset from the end of the member before |
| LayoutProperties.ByteThenLong | mrblib/protocol.rb:36-121 | a byte and a 64-bit member under a setting `a`: the second is at `a` and the size is `a + 8`, so 4 and 12 under `pack(4)`, 8 and 16 without |
| LayoutProperties.LayoutIsMonotone | mrblib/protocol.rb:36-121 | under settings changed at will, members of the same sizes with alignments that are nowhere larger are placed no later, and the size is no larger |
| LayoutProperties.PackOne | mrblib/protocol.rb:78-121 | under `pack(1)` offsets and size are running sums of sizes |
| LayoutProperties.PackEight | mrblib/protocol.rb:78-121 | `pack(8)` is the layout without a setting |
| TypedMemory.GetRawValue | src/uefi_protocol.c:125-156 | the value of the little-endian bytes at the address; the type without a branch raises |
| TypedMemory.SetRawValue | src/uefi_protocol.c:158-186 | memory changes exactly at the bytes of the type, to the little-endian image of the value; the type without a branch changes nothing |
| TypedMemory.StoreLittleEndian | src/uefi_protocol.c:161-182 | a store writes the low bytes of the number, least significant first, and no others |
| TypedMemory.BytesBack | src/uefi_protocol.c:125-186 | the bytes stored for any number denote it modulo 256 to the width |
| TypedMemory.LoadStored | src/uefi_protocol.c:125-186 | a stored value is read back wrapped to its type |
| TypedMemory.ExactWhenInRange | src/uefi_protocol.c:125-186 | 64-bit types lose nothing; the others return the value if and only if it is in their range |
| TypedMemory.ValueIsWrapped | src/uefi_protocol.c:125-186 | any number stored in an integer type is read back within its range, different by a multiple of 256 to its width |
| TypedMemory.ObjectsKeepBits | src/uefi_protocol.c:125-170 | status, pointer and handle values are the 64 bits stored |
| TypedMemory.CastsAgreeWithMemory | src/uefi_protocol.c:50-123 | a value passed through the 64-bit argument word equals one stored in memory and read back |
| TypedMemory.CastFromWord | src/uefi_protocol.c:89-123 | a result word gives the value of its low bytes, whatever the others hold; a boolean result raises |
| TypedMemory.NoBooleanArgument | src/uefi_protocol.c:82-84 | a boolean argument raises |
| StructRecord.SetLeavesOthers | src/uefi_protocol.c:244-257 | a set leaves the bytes of every other member, and all bytes outside its own, unchanged |
| StructRecord.GetAfterSet | src/uefi_protocol.c:232-257 | a get returns the last value set, wrapped to the type |
| StructRecord.SetUpdatesRecord | src/uefi_protocol.c:232-257 | one set on memory is one field update on the record it stands for |
| StructRecord.MemoryRefinesRecord | mrblib/protocol.rb:99-105 | every run of gets and sets over placed members gives the results of the same run on a plain record, and ends in its record |
| StructRecord.RunLeavesRest | mrblib/protocol.rb:99-105 | a run changes no byte outside the members it assigns, padding included |
| StructRecord.Instance.constructor | mrblib/protocol.rb:143-146 | an object is a pointer to memory with the layout of its class |
| StructRecord.Instance.Read | src/uefi_protocol.c:232-242 | a reader returns its field of the record |
| StructRecord.Instance.Assign | src/uefi_protocol.c:244-257 | a writer updates its field of the record, and memory nowhere else |
| Slices.EachSlice | mrblib/00_enum.rb:23-33 | the push-and-clear loop yields the pieces of the input |
| Slices.EachCons | mrblib/00_enum.rb:8-21 | the push-and-shift loop yields the windows at 0 to len-n in order, the whole input if it is shorter |
| Slices.WindowsAre | mrblib/00_enum.rb:8-21 | window i is the elements i to i+n-1, for every i that has them; the whole input if it is shorter |
| Slices.SlicesCover | mrblib/00_enum.rb:23-33 | the pieces concatenate to the input, none empty, all but the last of the full length; one piece for a number below 1 |
| Slices.SlicesCount | mrblib/00_enum.rb:23-33 | there are ceil(len/n) pieces |
| Names.AsciiToUtf16 | src/uefi_misc.c:11-26 | one 16-bit unit for each byte, and a terminator |
| Names.Utf16ToAscii | src/uefi_misc.c:28-41 | the low bytes of the units before the terminator |
| Names.NarrowWidened | src/uefi_misc.c:11-41 | narrowing a widened string returns its part before the first NUL: the string itself, with the terminator at its length, if and only if it has none |
| Names.WidenNarrowed | src/uefi_misc.c:11-41 | widening a narrowed name returns it if and only if its units are below 256 |
| Guid.StartsWithIsEquality | mrblib/01_string.rb:8-10 | the prefix test holds of the prefix alone |
| Guid.PushField | mrblib/guid.rb:23-40 | a field of even length gives its digit pairs, low pair first when read backwards; an odd one raises |
| Guid.FieldNumbers | mrblib/guid.rb:22-40 | the numbers of the five fields, the first three least significant byte first |
| Guid.PackChars | mrblib/guid.rb:42 | packing byte numbers with `C*` gives those bytes, through the modelled interpreter |
| Guid.PackNumbers | mrblib/guid.rb:42 | the data is the bytes of the numbers |
| Guid.Guid.constructor | mrblib/guid.rb:6 | no data before initialisation |
| Guid.Guid.Initialize | mrblib/guid.rb:8-14 | 16 bytes become the data as they are, anything else is read as a text; a failure leaves the data |
| Guid.Guid.InitializeStr | mrblib/guid.rb:16-43 | a text is read as specified, or rejected |
| Guid.Guid.ToS | mrblib/guid.rb:49-59 | the five groups in hexadecimal; data without the last group raises |
| GuidText.SplitJoined | mrblib/guid.rb:19 | splitting joined dash-free fields gives them back |
| GuidText.ReadPrinted | mrblib/guid.rb:16-59 | reading a printed GUID returns its data if and only if it has 11 to 16 bytes, so for all 16-byte ones |
| GuidText.RawIsItself | mrblib/guid.rb:8-59 | raw data makes a GUID of that data, and its 36-character text is read back to it |
| GuidText.DashesByPlace | mrblib/guid.rb:49-59 | a printed GUID has code 45 at places 8, 13, 18 and 23 and lower-case digits elsewhere |
| GuidText.PrintedExactly | mrblib/guid.rb:49-59 | printing fails exactly for data of fewer than ten bytes, and shows the first 16 of more |
| GuidText.ParsedByFields | mrblib/guid.rb:16-42 | which texts are refused, and how: any number of fields but five, or a field of odd length |
| GuidText.PrintRead | mrblib/guid.rb:16-59 | printing what was read from a text gives its lower case if and only if the text is well formed |
| GuidText.PrintWellFormed | mrblib/guid.rb:16-59 | a well-formed text is read, and printed in lower case |
| GuidText.MixedByteOrder | mrblib/guid.rb:22-40 | where each byte of the data stands in the text: the first three fields reversed, the others as written |
| GuidText.BracedIsRejected | mrblib/guid.rb:18-20 | a well-formed GUID in braces is never read |
| GuidText.CompareZero | mrblib/guid.rb:65-67 | comparison is 0 if and only if the data is equal, and antisymmetric |
| GuidText.CompareFirstDifference | mrblib/guid.rb:65-67 | the first byte that differs decides the order, and otherwise the shorter data comes first |
| GuidText.CompareTransitive | mrblib/guid.rb:65-67 | comparison is transitive |
| GuidText.EqualWhenPrintedEqual | mrblib/guid.rb:49-67 | two GUIDs are equal if and only if their printed texts are |
| Variables.Firmware.constructor | src/uefi_runtime_service.c:96 | a firmware with a list of variables, and possibly a call from which it fails |
| Variables.Firmware.GetNextVariableName | src/uefi_runtime_service.c:96 | the firmware's contract: the next variable, the size needed, the end of the list, or an error; the buffer is left alone unless it succeeds |
| Variables.Reallocate | src/uefi_runtime_service.c:99 | the longer buffer starts with the old one |
| Variables.AskNext | src/uefi_runtime_service.c:121 | each call from a point of the walk answers with the next variable, its need, or the end |
| Variables.Advance | src/uefi_runtime_service.c:107-121 | a successful call moves the walk one variable on and leaves its entry in the buffer |
| Variables.GrownStands | src/uefi_runtime_service.c:98-106 | growing leaves the walk where it was, with room for the next name |
| Variables.CallsBounded | src/uefi_runtime_service.c:97-122 | no point of the walk has made more than variables + growths calls |
| Variables.SizeAfterIsMax | src/uefi_runtime_service.c:89-106 | the final buffer size is the largest need of any name, at least 64 |
| Variables.GrowsExactly | src/uefi_runtime_service.c:98-106 | the buffer grows for exactly the names that take more than 64 bytes and more than every name before them |
| Variables.GrowthsCounted | src/uefi_runtime_service.c:97-122 | the number of growths is the number of those names |
| Variables.GetAllVariableNames | src/uefi_runtime_service.c:78-129 | names are returned if and only if all allocations of the walk succeed and no call fails; then one entry for every variable in order, with its GUID and the low bytes of its name, after exactly variables + growths + 1 calls, ending with a buffer of max(64, twice the longest name with its terminator) |

## Left out

- UEFI firmware calls other than GetNextVariableName, port I/O, the call of a raw function pointer and system reset: foreign effects.
- mruby object plumbing (arena, data wrapping, class registration, symbol interning) and the generated `mrblib/uefi_mrblib.c` and `mrblib/uefi_mrblib.rb`.
- Status, handle and pointer wrappers, `Enumerable#zip`, `end_with?`, `ljust`, `Pointer#write`, `inspect`, `Protocol.to_s` and the front end `override/tools/mruby/mruby.c`: one-line members and plumbing that would only add easy members.
- Layout.ProtocolClass.AddMember: an explicit `:offset` is a number not below 0; what the layout lemmas say holds of classes without one, since members at given offsets may overlap.
- Accessor names: members are known by their place in the list of definitions.
- Template counts beyond `long`, and string lengths and write indices beyond `int`: numbers are unbounded there.
- `FIXABLE` and `POSFIXABLE` are not part of this model: with 64-bit Fixnums no 32-bit value is refused.
- Shifting a byte of 128 or more into the sign bit of an `int` is taken as two's complement, and right shifts of negative numbers as arithmetic ones.
- `isspace` on characters of 128 or more: they are not blanks, as in the C locale.
- Float#to_i is given with the value, and a Ruby object of another class is one value `Nil`.
- Pack.PackArray: a store past the end of the buffer, which short base64 reservations make possible, ends in `Overrun`; what memory then holds is not modelled, and bytes are collected before they are stored. A store of one byte too many may land on the terminating NUL that library code not shown keeps after a string; it counts as an overrun here.
- Unpack.UnpackString: base64 with `*` ends in `Diverges` where the source would loop for ever.
- ForeignBytes.IgnoredExactly: for strings without `=`; with one, ForeignBytes.StrayBeforePadding shows that no condition on the places of the foreign bytes is exact. Base64.UnpackIgnoresForeign has no such restriction.
- Types: sizes and alignments are those of X64, where every type is aligned to its size.
- TypedMemory.SetRawValue: values of the wrong class, which the C code does not check, and strings passed for a pointer argument.
- Slices.EachSlice: a block call is recorded as the contents of the buffer at that moment; that later calls reuse the same buffer object is not modelled.
- Guid.Guid.InitializeStr: a field of odd length is taken to raise, since nil has no `to_i(16)`; `to_i(16)` of any other character is 0.
- Variables.GetAllVariableNames: the firmware answers from a fixed list without repetitions, and the initial vendor GUID, uninitialised in the source, does not matter to it.
- Library functions (`split`, `reverse`, `slice`, `to_s(16)`, `rjust`, `wcslen`, `realloc`) have their usual meaning.
