# RadioDoge: a verified model of its encoders, ciphers and tables

RadioDoge sends Dogecoin transactions over radio. Its host programs rest on a few dense
pieces of code: the QR symbol encoder, base-58 text with checksums, the scrypt hash in two
forms, a bitsliced AES, the peer-to-peer message framing, a baseline JPEG entropy coder, the
parsing and printing of amounts, the hash table that everything is kept in, and the splitting
of messages into radio packets. This project models these pieces in Dafny and proves what
they compute. Loops and in-place updates are methods proved against specification functions;
what the specifications promise is proved as lemmas for all inputs.

- **QR symbols** (`Gf256` to `QrTextSymbols`). `QrEncoder.EncodeSegmentsAdvanced` follows
  qrcodegen_encodeSegmentsAdvanced from the choice of the version to the last masked module.
  `QrReader.ReadsBack` is its counterpart: a reader that is given nothing but a matrix of
  modules recovers version, level, mask and data, and tolerates all the damage that the
  codes are made for. `QrContents.ContentsReadBack` goes on to the contents of the segments,
  and `QrTextSymbols.EncodeText` turns a text into a symbol from which the same text is read.
  All this rests on the field GF(2^8), the minimum distance of the Reed-Solomon blocks (by a
  Vandermonde argument), the distances of the two BCH codes, the interleaving bijection, the
  zigzag walk and the exact capacity of all forty versions. `MaskPatterns`, `QrPlaces`,
  `QrPictures`, `QrTables` and `PenaltyFacts` say what the standard draws and lists: the mask
  patterns and function patterns as pictures, the orders of bytes and modules, the tables,
  and what the penalty counts.
- **Base-58** (`Base58`, `Base58Alphabet`, `Base58Codec`, `Base58Check`). Both carry loops, the
  one alphabet, and exactly which texts and payloads survive a round trip.
- **uthash** (`ListSort`, `UtHashList`, `UtHashBuckets`, `UtHashExpand`, `UtHash`). The hash
  table with its intrusive lists on the heap: find, add, delete, bucket expansion and the
  in-place merge sort each keep the whole structure consistent and do to the map what they
  should.
- **scrypt** (`Salsa`, `SalsaFacts`, `Scrypt`, `ScryptFacts`, `SalsaSse2`, `ScryptSse2`). The
  SSE2 form, with its rearranged words, computes the same hash as the generic form, and that
  is the hash of RFC 7914, down to where single bits go in a quarter round.
- **AES** (`AesSbox` to `AesKeys`, `AesSchedule`, `AesFacts`, `Cbc`). The gate circuit is the
  S-box of FIPS 197, the bitsliced steps are the steps of the standard, byte by byte,
  deciphering undoes enciphering, the key expansion is the key schedule, word by word, and CBC
  with padding returns every message.
- **Framing** (`Framing`). Reassembly does not depend on how the byte stream is cut.
- **JPEG** (`JpegBits`, `Huffman`, `HuffmanFacts`, `JpegBlocks`, `JpegScan`, `JpegFacts`). The
  decoder of the standard gets every scan back from the bytes written.
- **Amounts** (`Koinu`, `KoinuTexts`). Printing and parsing of koinu, with the exact conditions
  under which each is right, and what becomes of every text that is no amount.
- **Multipart messages** (`Multipart`, `MultipartRuns`). The two splitters and the reassembly,
  exactly which messages arrive, and exactly which losses mix them up.

`Arith`, `Bits`, `Bytes`, `BitStrings`, `Sequences`, `Radix`, `Words`, `Gates` and
`BchCodes` hold the mathematics that several parts share. `dafny verify dfyconfig.toml`
checks the whole project.

## Model

| member | source | states |
|---|---|---|
| Gf256.Multiply | libdogecoin/libdogecoin-rd-dev/src/qr.c:402-410 | The shift-and-add loop computes the product in GF(2^8) modulo x^8 + x^4 + x^3 + x^2 + 1 that the field laws below are about |
| Gf256.MulAssoc | libdogecoin/libdogecoin-rd-dev/src/qr.c:402-410 | That product is associative |
| Gf256.MulComm | libdogecoin/libdogecoin-rd-dev/src/qr.c:402-410 | It is commutative |
| Gf256.MulAddLeft | libdogecoin/libdogecoin-rd-dev/src/qr.c:402-410 | It distributes over addition (xor) |
| Gf256.TimesTwo | libdogecoin/libdogecoin-rd-dev/src/qr.c:402-410 | Doubling takes away the polynomial 0x11D, and one is the unit: with the laws this leaves one product |
| Gf256Generator.Inverse | libdogecoin/libdogecoin-rd-dev/src/qr.c:402-410 | Every element but zero has an inverse: the products form a field |
| Gf256Generator.Log | libdogecoin/libdogecoin-rd-dev/src/qr.c:366-376 | Every element but zero is a power of 2, the element whose powers are the roots of the divisor |
| Gf256Generator.GenDistinct | libdogecoin/libdogecoin-rd-dev/src/qr.c:366-376 | The first 255 powers of 2 differ from one another |
| ReedSolomon.ComputeDivisor | libdogecoin/libdogecoin-rd-dev/src/qr.c:358-378 | For every degree from 1 to 30, the coefficients written are those of (x - 2^0)(x - 2^1)...(x - 2^(degree-1)) below the leading one; nothing else in the array changes |
| ReedSolomon.GeneratorRoots | libdogecoin/libdogecoin-rd-dev/src/qr.c:351-378 | That polynomial vanishes at 2^0 to 2^(k-1), for every k |
| ReedSolomon.ComputeRemainder | libdogecoin/libdogecoin-rd-dev/src/qr.c:384-395 | The bytes written are the remainder of the data by the divisor, also when data and result share a buffer without overlapping; the rest of the array is unchanged |
| ReedSolomon.CodewordRoots | libdogecoin/libdogecoin-rd-dev/src/qr.c:380-395 | Data followed by its remainder vanishes at every root of the divisor: it is a codeword |
| ReedSolomonDistance.MinimumDistance | libdogecoin/libdogecoin-rd-dev/src/qr.c:292-322 | Blocks of at most 255 bytes that differ in their data differ, once encoded, in more bytes than they have error correction bytes |
| ReedSolomonDistance.NearestBlock | libdogecoin/libdogecoin-rd-dev/src/qr.c:292-322 | With at most half as many damaged bytes as error correction bytes, no other data is as near as the original |
| ReedSolomonDistance.RemainderUnique | libdogecoin/libdogecoin-rd-dev/src/qr.c:384-395 | The remainder is the only choice of error correction bytes that makes a codeword |
| Interleave.TablesValid | libdogecoin/libdogecoin-rd-dev/src/qr.c:97-116 | For every version and level the two tables describe blocks that exist: at least one data byte each, at most 255 bytes in all |
| Interleave.OwnerOfIndex | libdogecoin/libdogecoin-rd-dev/src/qr.c:294-322 | Every byte of every block is put at an index inside the result, and the index determines block and position |
| Interleave.IndexOfOwner | libdogecoin/libdogecoin-rd-dev/src/qr.c:294-322 | Every index of the result is that of one byte of one block: with the row above, interleaving is a bijection |
| Interleave.AddEccAndInterleave | libdogecoin/libdogecoin-rd-dev/src/qr.c:294-322 | For every version and level, the result holds each data byte and each error correction byte of each block at its index; outside the scratch space nothing of data changes, and nothing behind the result |
| Interleave.ReadBlockBack | libdogecoin/libdogecoin-rd-dev/src/qr.c:294-322 | De-interleaving gives back each block's data with its own remainder behind it |
| QrPlaces.InterleavingOrder | libdogecoin/libdogecoin-rd-dev/src/qr.c:294-322 | A byte stands before another exactly if the standard reads it first: data before error correction bytes, and of each the first bytes of all blocks, then the second ones |
| QrPlaces.ShorterFirst | libdogecoin/libdogecoin-rd-dev/src/qr.c:294-322 | The blocks share out the data one behind another, the shorter ones first, and none is longer by more than a byte |
| QrTables.DataCodewordsLow | libdogecoin/libdogecoin-rd-dev/src/qr.c:97-116 | At level L, versions 1 to 40 have the data codewords of ISO/IEC 18004, table 7 |
| QrTables.DataCodewordsMedium | libdogecoin/libdogecoin-rd-dev/src/qr.c:97-116 | So have they at level M |
| QrTables.DataCodewordsQuartile | libdogecoin/libdogecoin-rd-dev/src/qr.c:97-116 | At level Q |
| QrTables.DataCodewordsHigh | libdogecoin/libdogecoin-rd-dev/src/qr.c:97-116 | And at level H |
| QrTables.EccPerBlockLow | libdogecoin/libdogecoin-rd-dev/src/qr.c:97-104 | At level L, the blocks of versions 1 to 40 have these numbers of error correction codewords, which together with the data codewords fixes the number of blocks |
| QrTables.EccPerBlockMedium | libdogecoin/libdogecoin-rd-dev/src/qr.c:97-104 | At level M |
| QrTables.EccPerBlockQuartile | libdogecoin/libdogecoin-rd-dev/src/qr.c:97-104 | At level Q |
| QrTables.EccPerBlockHigh | libdogecoin/libdogecoin-rd-dev/src/qr.c:97-104 | And at level H |
| QrMatrix.SetModule | libdogecoin/libdogecoin-rd-dev/src/qr.c:779-789 | Exactly one module changes, to the colour given |
| QrPlaces.EightModules | libdogecoin/libdogecoin-rd-dev/src/qr.c:771-789 | Behind the size byte each byte holds eight modules, row after row, the first one in its lowest bit |
| Zigzag.CellOfStep | libdogecoin/libdogecoin-rd-dev/src/qr.c:577-600 | Every module outside column 6 is visited by the zigzag walk, at the step computed for it |
| Zigzag.StepOfCell | libdogecoin/libdogecoin-rd-dev/src/qr.c:577-600 | Every step visits one such module, and no two steps the same one |
| Zigzag.DrawCodewords | libdogecoin/libdogecoin-rd-dev/src/qr.c:577-600 | Walking up and down the column pairs, the n-th module that is free shows the n-th bit of the codewords; all others are unchanged |
| Zigzag.ReadDrawn | libdogecoin/libdogecoin-rd-dev/src/qr.c:571-600 | Reading the free modules in walk order gives the codewords' bits and then light remainder modules |
| QrPlaces.WalkOrder | libdogecoin/libdogecoin-rd-dev/src/qr.c:577-600 | From the lower right corner the walk goes left and right within a pair of columns and then one row on, up in the first pair and down in the next, and it leaves column 6 out |
| FunctionModules.AlignPositions | libdogecoin/libdogecoin-rd-dev/src/qr.c:550-560 | The alignment positions of every version are even, inside the symbol and at least six apart |
| QrPlaces.AlignmentGaps | libdogecoin/libdogecoin-rd-dev/src/qr.c:550-560 | The first position is 6, the last is seven modules from the edge, and all gaps but the first are equal: the smallest even ones with which the first is no greater, except in version 32 |
| FunctionModules.GetAlignmentPatternPositions | libdogecoin/libdogecoin-rd-dev/src/qr.c:550-560 | The descending loop fills in these positions in ascending order |
| FunctionModules.InitializeFunctionModules | libdogecoin/libdogecoin-rd-dev/src/qr.c:418-449 | Exactly the function modules of the version are dark: finders, timing, format, alignment patterns and version blocks |
| FunctionModules.DrawLightFunctionModules | libdogecoin/libdogecoin-rd-dev/src/qr.c:455-510 | Every module gets the colour of its pattern, module by module; data modules keep theirs |
| FunctionModules.DrawVersion | libdogecoin/libdogecoin-rd-dev/src/qr.c:491-509 | From version 7 on, both version blocks show the eighteen version bits, bit by bit |
| QrPictures.UpperLeft | libdogecoin/libdogecoin-rd-dev/src/qr.c:418-510 | The upper left corner of every symbol is a picture of the finder pattern, with its light border |
| QrPictures.UpperRight | libdogecoin/libdogecoin-rd-dev/src/qr.c:418-510 | So is the upper right corner |
| QrPictures.LowerLeft | libdogecoin/libdogecoin-rd-dev/src/qr.c:418-510 | And the lower left one |
| QrPictures.Timing | libdogecoin/libdogecoin-rd-dev/src/qr.c:455-461 | Between the finder patterns row 6 and column 6 alternate, dark at even places |
| QrPictures.Alignment | libdogecoin/libdogecoin-rd-dev/src/qr.c:468-489 | Around every alignment position but the three in the corners there is a picture of the alignment pattern |
| QrPictures.VersionCopies | libdogecoin/libdogecoin-rd-dev/src/qr.c:491-509 | From version 7 on, version bit i stands in row i / 3 and column size - 11 + i % 3 of every symbol, and the other way round |
| FunctionModules.VersionOnly | libdogecoin/libdogecoin-rd-dev/src/qr.c:493-498 | The version bits are the only eighteen bits that hold the version above and are a multiple of the polynomial 0x1F25 |
| FunctionModules.VersionsApart | libdogecoin/libdogecoin-rd-dev/src/qr.c:493-498 | The version bits of different versions differ in at least eight places |
| QrCapacity.Capacity | libdogecoin/libdogecoin-rd-dev/src/qr.c:335-350 | For all forty versions the closed formula counts exactly the modules that the walk finds free of function patterns |
| BitBuffer.AppendBits | libdogecoin/libdogecoin-rd-dev/src/qr.c:185-189 | The n low bits of a number follow the bits held before, highest first; nothing beyond the buffer's part changes |
| QrSegments.GetTotalBits | libdogecoin/libdogecoin-rd-dev/src/qr.c:988-1006 | The result is the number of bits of all segments, or -1 exactly if a character count does not fit its field or the sum exceeds 32767 |
| QrSegments.FindVersion | libdogecoin/libdogecoin-rd-dev/src/qr.c:211-222 | The version found is the smallest of the range that the segments fit; none is found exactly if none fits |
| QrSegments.BoostLevel | libdogecoin/libdogecoin-rd-dev/src/qr.c:224-228 | With boosting, the highest level that still holds the data is taken; without, the level given |
| QrSegments.AppendSegment | libdogecoin/libdogecoin-rd-dev/src/qr.c:230-240 | A segment becomes its mode, its character count and its data bits, behind the bits so far |
| QrSegments.EncodeBits | libdogecoin/libdogecoin-rd-dev/src/qr.c:230-256 | The data codewords are the segments' bits, terminator, alignment zeros and alternating pad bytes, for every list of segments |
| QrTables.ModeIndicators | libdogecoin/libdogecoin-rd-dev/src/qr.c:230-234 | A segment begins with the four bits of its mode: 0001, 0010, 0100, 1000 or 0111 |
| QrTables.CountFields | libdogecoin/libdogecoin-rd-dev/src/qr.c:1011-1023 | The widths of the count fields in the three ranges of versions, for all modes |
| QrTables.Padding | libdogecoin/libdogecoin-rd-dev/src/qr.c:242-256 | Behind the bits: at most four zeros, zeros to the next byte, and then the bytes 0xEC and 0x11 in turn, in this order |
| QrText.MakeNumeric | libdogecoin/libdogecoin-rd-dev/src/qr.c:891-921 | The accumulator loop makes ten bits of three digits, with shorter groups at the end |
| QrText.NumericRoundTrip | libdogecoin/libdogecoin-rd-dev/src/qr.c:891-921 | Reading these bits returns every digit string, leading zeros included; their number is the one calculated |
| QrTables.DigitGroups | libdogecoin/libdogecoin-rd-dev/src/qr.c:891-921 | Three digits stand as their number in ten bits in front of the others; the last two or the last one take seven bits or four |
| QrText.MakeAlphanumeric | libdogecoin/libdogecoin-rd-dev/src/qr.c:925-955 | The accumulator loop makes eleven bits of two characters and six of a last one |
| QrText.AlphanumericRoundTrip | libdogecoin/libdogecoin-rd-dev/src/qr.c:925-955 | Reading these bits returns every alphanumeric text |
| QrTables.CharacterValues | libdogecoin/libdogecoin-rd-dev/src/qr.c:94 | The values of the characters: digits, letters and the nine others in the order of the standard |
| QrTables.CharacterPairs | libdogecoin/libdogecoin-rd-dev/src/qr.c:925-955 | Two characters stand as 45 times the first value and the second in eleven bits in front of the others; a single one takes six |
| Mask.ApplyMask | libdogecoin/libdogecoin-rd-dev/src/qr.c:608-631 | Exactly the data modules selected by the pattern are inverted |
| MaskPatterns.Pattern0 | libdogecoin/libdogecoin-rd-dev/src/qr.c:617 | Pattern 0 inverts the data modules of a checkerboard, from the corner on |
| MaskPatterns.Pattern1 | libdogecoin/libdogecoin-rd-dev/src/qr.c:618 | Pattern 1: those of every other row, from the first on |
| MaskPatterns.Pattern2 | libdogecoin/libdogecoin-rd-dev/src/qr.c:619 | Pattern 2: those of every third column, from the first on |
| MaskPatterns.Pattern3 | libdogecoin/libdogecoin-rd-dev/src/qr.c:620 | Pattern 3: those of every third diagonal, from the corner on |
| MaskPatterns.Pattern4 | libdogecoin/libdogecoin-rd-dev/src/qr.c:621 | Pattern 4: those of a checkerboard of blocks three wide and two high |
| MaskPatterns.Pattern5 | libdogecoin/libdogecoin-rd-dev/src/qr.c:622 | Pattern 5: those of a tile of six by six modules, drawn cell by cell |
| MaskPatterns.Pattern6 | libdogecoin/libdogecoin-rd-dev/src/qr.c:623 | Pattern 6: those of another such tile |
| MaskPatterns.Pattern7 | libdogecoin/libdogecoin-rd-dev/src/qr.c:624 | Pattern 7: those of a third one |
| Mask.MaskTwice | libdogecoin/libdogecoin-rd-dev/src/qr.c:602-631 | Masking twice with one pattern restores the symbol, and function modules never change |
| Mask.DrawFormatBits | libdogecoin/libdogecoin-rd-dev/src/qr.c:516-543 | Both copies and the dark module are drawn, whatever the modules showed before; all other modules stay |
| QrPictures.FirstFormatCopy | libdogecoin/libdogecoin-rd-dev/src/qr.c:527-535 | The place of each format bit in the copy around the upper left finder pattern |
| QrPictures.SecondFormatCopy | libdogecoin/libdogecoin-rd-dev/src/qr.c:537-543 | The place of each format bit in the other copy, and the dark module |
| QrPictures.LevelAndPattern | libdogecoin/libdogecoin-rd-dev/src/qr.c:517-525 | The two highest format bits tell the level and the next three the mask pattern, under the mask 10101 |
| Mask.FormatOnly | libdogecoin/libdogecoin-rd-dev/src/qr.c:517-525 | Without their mask, the format bits are the only fifteen bits that hold level and mask pattern above and are a multiple of the polynomial 0x537 |
| Mask.FormatsApart | libdogecoin/libdogecoin-rd-dev/src/qr.c:517-525 | The format bits of different levels or patterns differ in at least seven places |
| Penalty.GetPenaltyScore | libdogecoin/libdogecoin-rd-dev/src/qr.c:636-711 | The loops over the packed symbol compute the score of its modules |
| PenaltyRuns.LineScoreIs | libdogecoin/libdogecoin-rd-dev/src/qr.c:640-681 | For the maximal runs of any row or column: three points for five modules of one colour and one for each further one, and forty for each finder-like pattern among the run lengths, the line taken with light borders |
| PenaltyRuns.BalanceMeaning | libdogecoin/libdogecoin-rd-dev/src/qr.c:704-708 | The balance term is the smallest k with (45 - 5k)% <= dark / total <= (55 + 5k)% |
| PenaltyFacts.ScoreParts | libdogecoin/libdogecoin-rd-dev/src/qr.c:640-709 | The score is what the rows and the columns are charged, three times the number of two-by-two blocks of one colour, and ten times the balance term of the number of dark modules |
| Penalty.ScoreBound | libdogecoin/libdogecoin-rd-dev/src/qr.c:707-710 | Every score is below the starting value of the minimum search, and the balance term is 0 to 9 as asserted |
| MaskChoice.ChooseMask | libdogecoin/libdogecoin-rd-dev/src/qr.c:265-283 | The pattern chosen is the first of those with the least penalty, trying and undoing the eight of them; the symbol left is the finished one |
| QrEncoder.EncodeSegmentsAdvanced | libdogecoin/libdogecoin-rd-dev/src/qr.c:204-284 | For every list of segments: either nothing in the version range fits and the size byte is zero, or qrcode holds, module by module, the symbol of the segments in the smallest version that fits, at the level and mask promised |
| QrReader.FormatUnique | libdogecoin/libdogecoin-rd-dev/src/qr.c:512-543 | A reader that sees at most three damaged format modules finds the level and the mask |
| QrReader.ReadsBack | libdogecoin/libdogecoin-rd-dev/src/qr.c:204-322 | From any matrix of a symbol's size with at most three damaged format modules and, in each block, at most half as many damaged bytes as it has error correction bytes, a reader that is given nothing else recovers version, level, mask and all data bits |
| QrReader.SymbolRoundTrip | libdogecoin/libdogecoin-rd-dev/src/qr.c:204-284 | In particular it recovers them from every symbol the encoder draws |
| QrContents.MakeBytes | libdogecoin/libdogecoin-rd-dev/src/qr.c:876-887 | The segment holds these bytes, unchanged |
| QrContents.MakeEci | libdogecoin/libdogecoin-rd-dev/src/qr.c:959-982 | The segment holds the designator in one, two or three bytes |
| QrTables.Designators | libdogecoin/libdogecoin-rd-dev/src/qr.c:958-984 | The designator as one, two or three bytes with none, one or two leading ones |
| QrContents.ContentsReadBack | libdogecoin/libdogecoin-rd-dev/src/qr.c:204-322 | For every list of numeric, alphanumeric, byte and ECI segments that fits: a reader that is given only the matrix, damaged as above or not, gets the list of their contents back, segment headers, terminator and padding parsed |
| QrTextSymbols.EncodeText | libdogecoin/libdogecoin-rd-dev/src/qr.c:129-163 | It succeeds if and only if the text fits some version of the range, and then reading the symbol drawn gives the text back, for every text |
| QrTextSymbols.ShortestForm | libdogecoin/libdogecoin-rd-dev/src/qr.c:129-163 | The form in which a text is encoded has no more data bits than any other form of the same text |
| Base58.DecodedEncoded | libdogecoin/libdogecoin-rd-dev/src/base58.c:52-195 | Decoding the text of any bytes gives the bytes back, leading zeros included |
| Base58.EncodedDecoded | libdogecoin/libdogecoin-rd-dev/src/base58.c:52-195 | Encoding what any base-58 text decodes to gives the text back |
| Base58Alphabet.Ascending | libdogecoin/libdogecoin-rd-dev/src/base58.c:152-153 | A greater digit has a greater character |
| Base58Alphabet.Excluded | libdogecoin/libdogecoin-rd-dev/src/base58.c:36-45 | A character is no digit if and only if it is no letter or digit or is one of 0, O, I and l; with the order, this leaves one alphabet |
| Base58Alphabet.Written | libdogecoin/libdogecoin-rd-dev/src/base58.c:152-188 | No text that is written has any other character |
| Base58Alphabet.OneByteOrder | libdogecoin/libdogecoin-rd-dev/src/base58.c:155-195 | Of two single bytes below 58, the greater one is written as the greater character |
| Base58Alphabet.SameNumber | libdogecoin/libdogecoin-rd-dev/src/base58.c:155-195 | The text is worth in base 58 what the bytes are worth in base 256, and begins with one 1 for each zero in front |
| Base58Codec.PushByte | libdogecoin/libdogecoin-rd-dev/src/base58.c:167-176 | The carry loop with its high-water mark multiplies the number by 256 and adds a byte, skipping only digits that are zero |
| Base58Codec.Encode | libdogecoin/libdogecoin-rd-dev/src/base58.c:155-195 | The text and its terminator are written exactly if they fit, the size reported is always what they need, and otherwise the buffer is unchanged |
| Base58Codec.Decode | libdogecoin/libdogecoin-rd-dev/src/base58.c:52-126 | It succeeds exactly on base-58 text whose value fits the limbs that are used and whose bytes fit the buffer, and then leaves these bytes at the buffer's end |
| Base58.RoomyExactly | libdogecoin/libdogecoin-rd-dev/src/base58.c:52-126 | The text lengths for which every text can be decoded into as many bytes are 5, 9, 10 and 13 or more |
| Base58.ZzzzTurnedDown | libdogecoin/libdogecoin-rd-dev/src/base58.c:52-126 | Four bytes would hold what "zzzz" stands for, and yet it is turned down |
| Base58Check.B58Check | libdogecoin/libdogecoin-rd-dev/src/base58.c:128-150 | It accepts exactly the stamped bytes with as many leading zeros in memory as the text has leading ones, and looks at no more of the memory than stated |
| Base58Check.StampCompared | libdogecoin/libdogecoin-rd-dev/src/base58.c:128-150 | Bytes are stamped if and only if the last four are the first four of the hash of those before |
| Base58Check.ReachExactly | libdogecoin/libdogecoin-rd-dev/src/base58.c:139-150 | For the bytes of a text, the byte behind them is looked at if and only if they are stamped and all zeros |
| Base58Check.FourOnes | libdogecoin/libdogecoin-rd-dev/src/base58.c:139-150 | For a hash that stamps zeros with zeros, four ones in a buffer of four are such a text |
| Base58Check.EncodeCheck | libdogecoin/libdogecoin-rd-dev/src/base58.c:197-220 | For payloads of at most 128 bytes, the text of payload and checksum, if it fits; otherwise zero and no change |
| Base58Check.DecodeCheck | libdogecoin/libdogecoin-rd-dev/src/base58.c:222-244 | A text is accepted if and only if it is well formed, holdable, stamped and not all zeros, unless the comparison of zeros leaves the buffer, where the byte behind decides; the decoded bytes are moved to the front and zeros follow |
| Base58Check.CheckRoundTrip | libdogecoin/libdogecoin-rd-dev/src/base58.c:197-244 | For payloads of every length, the text of the stamped payload stands for it and is accepted if and only if it has at most 128 characters, is holdable and the stamped payload is not all zeros |
| Base58Check.PayloadsThatAlwaysFit | libdogecoin/libdogecoin-rd-dev/src/base58.c:197-244 | From 9 to 89 bytes only the last condition remains |
| Base58Check.OneTextPerPayload | libdogecoin/libdogecoin-rd-dev/src/base58.c:197-244 | No two accepted texts stand for the same payload |
| UtHash.Hash.Find | serdog/include/uthash.h:746-765 | It finds the item with the key in the map that the table stands for, or nothing exactly if there is none |
| UtHash.Hash.Add | serdog/include/uthash.h:397-416 | The item is last in the list and the map has one more entry; table, chains, counts and list stay consistent. The number of buckets doubles if and only if the chain of the new item now has ten times its expand_mult and ten more items and expansion is not barred; it is 32 for a new table |
| UtHash.Hash.AddToTable | serdog/include/uthash.h:768-787 | The same for the table: with the new chain that long the buckets are doubled and the numbers that govern expansion are set anew, and otherwise nothing but the one chain changes |
| UtHash.Hash.Delete | serdog/include/uthash.h:451-478 | The list loses exactly this item and the map its key; all the rest stays consistent |
| UtHash.Hash.MakeTable | serdog/include/uthash.h:213-243 | A table of 32 empty buckets |
| UtHash.Hash.Expand | serdog/include/uthash.h:834-884 | Twice the buckets hold the same items, each in the bucket of its hash; the ideal chain length, the count of items beyond it and the flag that ends expansion are those defined |
| UtHashExpand.Redistribute | serdog/include/uthash.h:848-874 | Walking all old chains moves every item once, into the chain of its hash among twice as many buckets |
| UtHashExpand.MultWithin | serdog/include/uthash.h:857-862 | The expand_mult of a bucket that was filled in an expansion, within the bounds of its length and the ideal one |
| UtHashBuckets.Push | serdog/include/uthash.h:768-787 | The item is first in the chain of its bucket, and the other chains are untouched |
| UtHashBuckets.BucketIsRemainder | serdog/include/uthash.h:431-434 | In a table of 2^k buckets the bucket is the remainder of the hash value |
| UtHashBuckets.Remove | serdog/include/uthash.h:790-803 | The item is unlinked from its chain, and the other chains are untouched |
| UtHashList.SortList | serdog/include/uthash.h:891-973 | The in-place bottom-up merge sort relinks the list into the sorted order of its specification, previous pointers included |
| ListSort.StableSort | serdog/include/uthash.h:891-973 | For any preorder that order is sorted, a permutation, and keeps equal items in their order |
| UtHash.Hash.Sort | serdog/include/uthash.h:891-973 | The table stands for the same map, the list is sorted and stable, and every chain is as before |
| Salsa.XorSalsa8 | libdogecoin/libdogecoin-rd-dev/src/scrypt.c:77-141 | The unrolled rounds are four double rounds of Salsa20, added to the xor of the two halves |
| SalsaFacts.ThirdWordBit | libdogecoin/libdogecoin-rd-dev/src/scrypt.c:99-125 | A bit of the third word of a quarter round comes out thirteen places on in the fourth, and 31 and 18 places on in the first |
| SalsaFacts.FirstWordBit | libdogecoin/libdogecoin-rd-dev/src/scrypt.c:99-125 | A bit of the first word comes out 7 places on in the second, and 16 and 9 places on in the third |
| SalsaFacts.SecondWordBit | libdogecoin/libdogecoin-rd-dev/src/scrypt.c:99-125 | A bit of the second word comes out 9 places on in the third, and 22 and 13 places on in the fourth |
| SalsaFacts.FourthWordBit | libdogecoin/libdogecoin-rd-dev/src/scrypt.c:99-125 | A bit of the fourth word comes out 7 places on in the second and 16 places on in the third |
| SalsaFacts.RoundsAlike | libdogecoin/libdogecoin-rd-dev/src/scrypt.c:99-125 | A column round treats all columns alike, each from its diagonal on, and a row round does the same to the rows |
| SalsaFacts.FirstColumn | libdogecoin/libdogecoin-rd-dev/src/scrypt.c:99-125 | The first column of a column round is the quarter round of that column |
| SalsaFacts.ColumnsApart | libdogecoin/libdogecoin-rd-dev/src/scrypt.c:99-125 | A word outside a column does not influence it |
| Scrypt.RoMix | libdogecoin/libdogecoin-rd-dev/src/scrypt.c:157-169 | The two loops over the scratchpad compute the sequential memory-hard mix of RFC 7914, section 5, for N = 1024 and r = 1 |
| Scrypt.ScryptGeneric | libdogecoin/libdogecoin-rd-dev/src/scrypt.c:143-175 | The output is the scrypt hash of the input, for any key derivation function |
| ScryptFacts.BlockMixIs | libdogecoin/libdogecoin-rd-dev/src/scrypt.c:77-141 | Each half is mixed with the other, the second with the first as it is then: four times two rounds, added to what they began with |
| ScryptFacts.HashIs | libdogecoin/libdogecoin-rd-dev/src/scrypt.c:143-175 | By the words of RFC 7914: from 1024 mixed states in a row, a walk of 1024 steps each mixes in the one that the first word of its second half selects; the hash is the derived key with its bytes reversed |
| ScryptFacts.WordsPlaced | libdogecoin/libdogecoin-rd-dev/src/scrypt.c:153-154 | Where the 32 words of the state stand in the derived bytes |
| ScryptFacts.LowestFirst | libdogecoin/libdogecoin-rd-dev/src/scrypt.c:153-154 | The bytes of a word, the lowest first |
| SalsaSse2.DoubleRoundSse2 | libdogecoin/libdogecoin-rd-dev/src/scrypt-sse2.c:53-88 | One vector round with its shuffles is one double round on the rearranged words |
| SalsaSse2.XorSalsa8Sse2 | libdogecoin/libdogecoin-rd-dev/src/scrypt-sse2.c:40-95 | The vector form of the core does the same to the rearranged block |
| ScryptSse2.ScryptLanes | libdogecoin/libdogecoin-rd-dev/src/scrypt-sse2.c:97-139 | The SSE2 form computes the same hash as the generic one for every input |
| AesSbox.SBoxMeaning | libdogecoin/libdogecoin-rd-dev/src/ctaes.c:67-260 | For every byte, the gate circuit computes the affine transformation of the inverse in GF(2^8), with zero its own inverse (FIPS 197, section 5.1.1) |
| AesSbox.InverseUndoes | libdogecoin/libdogecoin-rd-dev/src/ctaes.c:67-260 | The inverse circuit takes the circuit back |
| AesSubBytes.SubBytes | libdogecoin/libdogecoin-rd-dev/src/ctaes.c:67-260 | The gate sequence on eight 16-bit slices applies the S-box, or its inverse, to all sixteen bytes |
| AesRounds.ShiftRows | libdogecoin/libdogecoin-rd-dev/src/ctaes.c:267-278 | The mask-and-shift form rotates row r by r places |
| AesRounds.InvShiftRows | libdogecoin/libdogecoin-rd-dev/src/ctaes.c:280-291 | The inverse form rotates the rows back |
| AesRounds.MixColumns | libdogecoin/libdogecoin-rd-dev/src/ctaes.c:295-359 | The bitsliced form mixes the columns; for deciphering, the forward matrix followed by its square |
| AesCipher.MixMeaning | libdogecoin/libdogecoin-rd-dev/src/ctaes.c:295-359 | A byte of a mixed column is {02}a + {03}b + c + d in the field (FIPS 197, section 5.1.3) |
| AesCipher.MixBack | libdogecoin/libdogecoin-rd-dev/src/ctaes.c:295-359 | Multiplying by the forward matrix and its square undoes the forward matrix |
| AesFacts.OctetWorth | libdogecoin/libdogecoin-rd-dev/src/ctaes.c:25-33 | The bits of a byte add up to it, the lowest worth one |
| AesFacts.Doubled | libdogecoin/libdogecoin-rd-dev/src/ctaes.c:295-359 | Multiplication by {02} doubles and takes away 0x11B, and by {03} adds once more |
| AesFacts.FirstBytes | libdogecoin/libdogecoin-rd-dev/src/ctaes.c:467-468 | The cipher begins by adding the first round key to the bytes, those of a column one behind another |
| AesFacts.InnerBytes | libdogecoin/libdogecoin-rd-dev/src/ctaes.c:470-475 | Byte r of column c of an inner round, in terms of the bytes before: S-box, rows shifted, {02}, {03}, {01}, {01} down the column, and the key |
| AesFacts.LastBytes | libdogecoin/libdogecoin-rd-dev/src/ctaes.c:477-479 | The same of the last round, which does not mix |
| AesRounds.AddRoundKey | libdogecoin/libdogecoin-rd-dev/src/ctaes.c:361-367 | The round key is added to every byte |
| AesBytes.LoadBytes | libdogecoin/libdogecoin-rd-dev/src/ctaes.c:35-44 | Sixteen bytes become the state they denote, bit by bit in the slices |
| AesBytes.SaveBytes | libdogecoin/libdogecoin-rd-dev/src/ctaes.c:47-61 | The state becomes its sixteen bytes |
| AesKeys.AesSetup | libdogecoin/libdogecoin-rd-dev/src/ctaes.c:419-460 | The round keys in their slices are the key schedule of FIPS 197, section 5.2, for every key length from four words on |
| AesSchedule.KeyWords | libdogecoin/libdogecoin-rd-dev/src/ctaes.c:437-443 | The first eight words of the round keys of AES-256 are the key |
| AesSchedule.EighthWords | libdogecoin/libdogecoin-rd-dev/src/ctaes.c:447-458 | Every eighth word is the word eight back, plus the word before with its bytes turned and substituted, plus 1, 2, 4, 8, 16, 32 or 64 in its first byte |
| AesSchedule.FourthWords | libdogecoin/libdogecoin-rd-dev/src/ctaes.c:453-455 | The words halfway between add the word before substituted |
| AesSchedule.OtherWords | libdogecoin/libdogecoin-rd-dev/src/ctaes.c:447-458 | All others add the word before as it is |
| AesRounds.AesEncrypt | libdogecoin/libdogecoin-rd-dev/src/ctaes.c:462-482 | The block written is the cipher of FIPS 197, section 5.1, under these round keys, for every number of rounds |
| AesRounds.AesDecrypt | libdogecoin/libdogecoin-rd-dev/src/ctaes.c:484-510 | The block written is the equivalent inverse, step by step in the source's order |
| AesBytes.DecryptUndoes | libdogecoin/libdogecoin-rd-dev/src/ctaes.c:462-510 | Deciphering undoes enciphering for every block and all round keys |
| Cbc.CbcEncrypt | libdogecoin/libdogecoin-rd-dev/src/aes.c:28-65 | The output is the CBC chain of the padded data; nothing is written for empty data or a partial block |
| Cbc.ChainBlocks | libdogecoin/libdogecoin-rd-dev/src/aes.c:28-65 | Block i of the chain is the cipher of block i of the data xored with block i - 1 of the chain, and the first one with iv |
| Cbc.PaddedBytes | libdogecoin/libdogecoin-rd-dev/src/aes.c:54-63 | Behind the data stand one to sixteen bytes, each of them their number, up to a multiple of sixteen |
| Cbc.CbcDecrypt | libdogecoin/libdogecoin-rd-dev/src/aes.c:67-110 | The output is the chain undone, and the length returned is what the padding leaves, or zero for bad padding |
| Cbc.CbcRoundTrip | libdogecoin/libdogecoin-rd-dev/src/aes.c:28-110 | Decrypting with padding returns every non-empty message exactly |
| Cbc.PaddingUnique | libdogecoin/libdogecoin-rd-dev/src/aes.c:93-105 | The padding check accepts exactly the padded messages |
| Framing.Node.ReadCb | libdogecoin/libdogecoin-rd-dev/src/net.c:115-180 | One call consumes exactly the whole messages in buffer and input, hands them on in order, keeps the unfinished tail, and stops for good at an oversized header or when the handler disconnects |
| Framing.ChunksDoNotMatter | libdogecoin/libdogecoin-rd-dev/src/net.c:115-180 | However the stream is cut into reads, the same messages are handed on and the same tail is kept, for a handler that may depend on everything handled before |
| Framing.MessageNew | libdogecoin/libdogecoin-rd-dev/src/protocol.c:80-108 | The frame is magic, padded command, length, checksum and data |
| Framing.DeserMsghdr | libdogecoin/libdogecoin-rd-dev/src/protocol.c:404-410 | The header fields are read from their places |
| Framing.FrameBytes | libdogecoin/libdogecoin-rd-dev/src/protocol.c:80-108 | Every byte of a frame at its place, with the length in four bytes from the lowest on |
| Framing.HeaderBytes | libdogecoin/libdogecoin-rd-dev/src/protocol.c:404-410 | The four fields of a header at their places |
| Framing.StreamRoundTrip | libdogecoin/libdogecoin-rd-dev/src/protocol.c:80-108 | Frames one behind another are parsed into the commands they were made from |
| Framing.TooLarge | libdogecoin/libdogecoin-rd-dev/src/net.c:115-180 | A frame with more than 4000000 bytes of data ends the connection, and nothing of it is handed on |
| Multipart.CreateMultipartPackets | RadioDogeSharp/RadioDogeSharp/PacketHelper.cs:21-74 | Packet i carries both headers, the addresses, the message number, the piece number and the count at their bytes, and the i-th cut of the payload |
| Multipart.CmdSendMultipartMessage | serdog/serdog.c:540-586 | The C splitter sends the same pieces, byte by byte |
| Multipart.MultipartPacket.AddPacketPiece | RadioDogeSharp/RadioDogeSharp/MultipartPacket.cs:26-61 | One piece is accepted exactly if its number is the one expected, and completes the message when the count is reached |
| Multipart.Receive | RadioDogeSharp/RadioDogeSharp/SerialPortManager.cs:172-184 | A complete message is handed on and a fresh collector takes over |
| Multipart.OnlyTheMessage | RadioDogeSharp/RadioDogeSharp/MultipartPacket.cs:26-61 | Whatever pieces of one message arrive, in whatever order and however often, nothing but the message is ever handed on |
| Multipart.DeliveredExactly | RadioDogeSharp/RadioDogeSharp/MultipartPacket.cs:26-61 | Sent in order, the message is handed on exactly once if and only if it has at most 49152 bytes |
| Multipart.WrappedCount | RadioDogeSharp/RadioDogeSharp/PacketHelper.cs:59-60 | With more pieces the count byte wraps, and what is handed on first is a beginning of the message |
| MultipartRuns.RunMeans | RadioDogeSharp/RadioDogeSharp/MultipartPacket.cs:26-61 | For any run of messages with any losses, taking piece after piece hands on exactly what a description message by message joins together |
| MultipartRuns.WholeExactly | RadioDogeSharp/RadioDogeSharp/MultipartPacket.cs:26-61 | Only whole messages are handed on if and only if no message completes what an earlier one began, or the two halves happen to make a message of the run |
| MultipartRuns.WholeOrHeadless | RadioDogeSharp/RadioDogeSharp/MultipartPacket.cs:26-61 | If every message arrives whole or without its first piece, the whole ones are handed on, in order, and nothing else |
| MultipartRuns.NextMessage | RadioDogeSharp/RadioDogeSharp/MultipartPacket.cs:26-61 | A message that arrives whole is sure to be handed on if and only if nothing is pending before it |
| MultipartRuns.MixedUp | RadioDogeSharp/RadioDogeSharp/MultipartPacket.cs:26-61 | A lost last piece makes the next message complete the first, and a mixture is handed on |
| JpegBits.ByteBuffer.WriteByte | libdogecoin/libdogecoin-rd-dev/src/jpeg.c:86-95 | The byte is appended and the buffer doubles when full |
| JpegBits.HuffState.WriteBits | libdogecoin/libdogecoin-rd-dev/src/jpeg.c:208-225 | The n low bits follow all bits written so far; whole bytes go out with a zero behind each 0xFF |
| JpegBits.Close | libdogecoin/libdogecoin-rd-dev/src/jpeg.c:127-132 | The last byte is filled up with ones |
| JpegBits.NoMarkers | libdogecoin/libdogecoin-rd-dev/src/jpeg.c:204-225 | Behind every 0xFF in the stuffed stream there is a zero byte |
| JpegBits.UnstuffedStuffed | libdogecoin/libdogecoin-rd-dev/src/jpeg.c:204-225 | Taking the stuffing out restores the bytes |
| Huffman.DcIsCode | libdogecoin/libdogecoin-rd-dev/src/jpeg.c:253-286 | The DC code table is the canonical code of its counts and values |
| Huffman.AcIsCode | libdogecoin/libdogecoin-rd-dev/src/jpeg.c:257-350 | So is the AC table, for every symbol |
| HuffmanFacts.Counts | libdogecoin/libdogecoin-rd-dev/src/jpeg.c:253-257 | How many code words have n bits, for both tables |
| HuffmanFacts.Lengths | libdogecoin/libdogecoin-rd-dev/src/jpeg.c:287-319 | The length of the code word of every run and size |
| HuffmanFacts.Ascending | libdogecoin/libdogecoin-rd-dev/src/jpeg.c:321-353 | Among symbols with code words of one length, the greater symbol has the greater word; with the counts and the lengths this leaves one table |
| HuffmanFacts.DcLengths | libdogecoin/libdogecoin-rd-dev/src/jpeg.c:282-285 | The lengths of the DC code words, which ascend |
| Huffman.LookupCode | libdogecoin/libdogecoin-rd-dev/src/jpeg.c:253-350 | The decoder of the standard finds each symbol from its code, whatever bits follow |
| JpegBlocks.EncodeBlockImpl | libdogecoin/libdogecoin-rd-dev/src/jpeg.c:148-192 | One block adds the DC difference, the runs of zeros with their values and the end marker, and keeps the new DC |
| JpegFacts.ValueMeaning | libdogecoin/libdogecoin-rd-dev/src/jpeg.c:148-192 | A positive number is written in as few bits as it has, a negative one in as many, all of them the other way round |
| JpegBlocks.BlockDecodes | libdogecoin/libdogecoin-rd-dev/src/jpeg.c:148-192 | The decoder of the JPEG standard (ITU-T T.81, annex F.2) gets the coefficients back and leaves the bits behind |
| JpegScan.ScanBlock | libdogecoin/libdogecoin-rd-dev/src/jpeg.c:597-603 | The coefficients in zigzag order, and the place behind the last that is not zero |
| JpegScan.ZigzagOrder | libdogecoin/libdogecoin-rd-dev/src/jpeg.c:243-251 | The zigzag order runs through the anti-diagonals of the block, from the upper left corner on, in turn up and down |
| JpegScan.EncodeScan | libdogecoin/libdogecoin-rd-dev/src/jpeg.c:406-418 | All blocks of a scan in one bit stream behind the header, closed and stuffed |
| JpegFacts.Differences | libdogecoin/libdogecoin-rd-dev/src/jpeg.c:148-170 | The bits of a block begin with the size and the bits of the difference between its first coefficient and that of the block before |
| JpegScan.FileDecodes | libdogecoin/libdogecoin-rd-dev/src/jpeg.c:127-225 | Unstuffing and decoding that stream returns all blocks of the scan, fewer than eight ones are left, and it holds no marker |
| Koinu.CalcLength | libdogecoin/libdogecoin-rd-dev/src/koinu.c:118-125 | The number of decimal digits, none for zero |
| Koinu.PutDecimal | libdogecoin/libdogecoin-rd-dev/src/koinu.c:127-139 | The decimal digits and a NUL |
| Koinu.KoinuToCoinsStr | libdogecoin/libdogecoin-rd-dev/src/koinu.c:141-175 | Every amount but two numbers prints as whole coins, a point and eight decimals |
| Koinu.AmountWorth | libdogecoin/libdogecoin-rd-dev/src/koinu.c:141-175 | The text printed is whole coins without leading zeros, a point and eight decimals that are together worth the amount |
| Koinu.PrintedText | libdogecoin/libdogecoin-rd-dev/src/koinu.c:148-172 | The buffer then reads as that text if and only if the amount is at least a coin or the buffer had a NUL in place 10 |
| Koinu.CoinsToKoinuStr | libdogecoin/libdogecoin-rd-dev/src/koinu.c:177-224 | The result is the parsed amount, for every text that stays in the scratch string |
| Koinu.ScratchExact | libdogecoin/libdogecoin-rd-dev/src/koinu.c:182-198 | For every accepted text, the scratch string suffices if and only if the point is among the first 14 characters or there is none and the text has at most 20 |
| Koinu.ParsesDecimal | libdogecoin/libdogecoin-rd-dev/src/koinu.c:211-223 | What every decimal text parses to: an exact sum modulo 2^64, in which more than twelve digits of whole coins are not multiplied |
| Koinu.ValueSnoc | libdogecoin/libdogecoin-rd-dev/src/koinu.c:211-223 | One more digit counts once, and those before it ten times as much |
| Koinu.ParsesExactly | libdogecoin/libdogecoin-rd-dev/src/koinu.c:211-223 | The amount itself comes out if and only if it is less than 2^64 - 1, is not the one number turned down, and whole coins of more than twelve digits are all zeros |
| Koinu.RoundTrip | libdogecoin/libdogecoin-rd-dev/src/koinu.c:141-224 | Parsing what was printed returns the amount, for every amount that prints |
| KoinuTexts.ReadsToTheEnd | libdogecoin/libdogecoin-rd-dev/src/koinu.c:211-223 | strtoull reads a text to its end if and only if it is white space, at most one sign, and then digits to the end |
| KoinuTexts.ParsesText | libdogecoin/libdogecoin-rd-dev/src/koinu.c:177-224 | What every accepted text parses to, whatever its characters: 0 if its decimals are no such numeral, and otherwise the sum of coins and decimals modulo 2^64, unless that is one of the two numbers turned down |
| KoinuTexts.TurnedDown | libdogecoin/libdogecoin-rd-dev/src/koinu.c:177-224 | An accepted text comes out as 0 if and only if its decimals are no such numeral or the sum is 0 or turned down |
| KoinuTexts.MisreadExactly | libdogecoin/libdogecoin-rd-dev/src/koinu.c:211-223 | A text with decimals that are not all digits is not turned down if and only if they are such a numeral and the sum is an amount other than 0 |
| KoinuTexts.SignedDecimals | libdogecoin/libdogecoin-rd-dev/src/koinu.c:211-223 | Signs and white space among the decimals: the digits behind them are added or taken away, modulo 2^64 |
| KoinuTexts.SignedWhole | libdogecoin/libdogecoin-rd-dev/src/koinu.c:211-223 | The same in front of the whole coins, which count for 10^8 unless they are -1 or longer than twelve characters |
| KoinuTexts.BrokenWhole | libdogecoin/libdogecoin-rd-dev/src/koinu.c:211-223 | Whole coins that only begin with a numeral count for that numeral, not multiplied |
| KoinuTexts.NoWhole | libdogecoin/libdogecoin-rd-dev/src/koinu.c:211-223 | Whole coins without a numeral at the front count for nothing |
| KoinuTexts.PlusFive | libdogecoin/libdogecoin-rd-dev/src/koinu.c:211-223 | "1.+5" parses to 1.05 coins |
| KoinuTexts.SpaceFive | libdogecoin/libdogecoin-rd-dev/src/koinu.c:211-223 | "1. 5" parses to 1.05 coins |
| KoinuTexts.MinusFive | libdogecoin/libdogecoin-rd-dev/src/koinu.c:211-223 | "1.-5" parses to 0.95 coins |
| KoinuTexts.SpaceMinusTwo | libdogecoin/libdogecoin-rd-dev/src/koinu.c:178 | " -2" is not turned down and parses to 2^64 less two coins |
| KoinuTexts.TwoX | libdogecoin/libdogecoin-rd-dev/src/koinu.c:211-216 | "2x" parses to two koinu |
| KoinuTexts.AbcHalf | libdogecoin/libdogecoin-rd-dev/src/koinu.c:211-216 | "abc.5" parses to half a coin |
| Koinu.EightDecimalsCount | libdogecoin/libdogecoin-rd-dev/src/koinu.c:200-203 | Characters behind the eighth decimal do not matter |
| Koinu.WrapsAround | libdogecoin/libdogecoin-rd-dev/src/koinu.c:214-215 | 200000000000 coins parse to another amount |
| Koinu.NotMultiplied | libdogecoin/libdogecoin-rd-dev/src/koinu.c:214-215 | "0000000000001" parses to one koinu |
| Koinu.LeavesScratch | libdogecoin/libdogecoin-rd-dev/src/koinu.c:182-198 | Accepted texts that leave the scratch string |

## Findings

Places where the code does not do what its documentation or its use suggests. Each has the
source line, an input, and the exact condition that is proved.

- **Large amounts wrap around.** `libdogecoin/libdogecoin-rd-dev/src/koinu.c:215` multiplies
  whole coins by 10^8 in 64 bits. Input "200000000000" (`Koinu.WrapsAround`).
- **Long whole parts are not multiplied.** The same line multiplies only if there are at most
  twelve digits. Input "0000000000001", which is one coin and parses to one koinu
  (`Koinu.NotMultiplied`). For every decimal text, both this and the wrap-around are covered
  by one condition: the amount comes out if and only if it is below 2^64 - 1, is not
  0xFFFFF511543FB600, and whole coins of more than twelve digits are all zeros
  (`Koinu.ParsesExactly`).
- **The scratch string is too short for some accepted texts.** `koinu.c:182-198` accepts 22
  characters and copies them, and eight zeros from the point on, into 21. Inputs: 21 digits;
  14 digits and a point (`Koinu.LeavesScratch`). The copy stays inside and ends in a NUL if and
  only if `Koinu.InScratch` holds: the point is among the first 14 characters, or there is none
  and the text has at most 20 (`Koinu.ScratchExact`).
- **Texts that are no amounts are not turned down.** `koinu.c:178` tests only the first character
  for a sign, and `koinu.c:211-220` hands both halves to strtoull, which skips white space and takes
  a sign. Inputs: "1.+5" and "1. 5", which parse to 1.05 coins (`KoinuTexts.PlusFive`,
  `KoinuTexts.SpaceFive`), "1.-5", which parses to 0.95 coins (`KoinuTexts.MinusFive`), and " -2",
  which parses to 2^64 less two coins (`KoinuTexts.SpaceMinusTwo`). What every accepted text parses
  to, by its characters, is `KoinuTexts.ParsesText`; it comes out as 0 if and only if its decimals
  are not white space, at most one sign and digits to the end, or the sum is 0 or one of the two
  numbers turned down (`KoinuTexts.TurnedDown`; for whole coins in digits,
  `KoinuTexts.MisreadExactly`). Characters behind the eighth decimal are not looked at
  (`Koinu.EightDecimalsCount`).
- **Whole coins that are no number do not stop the parser.** `koinu.c:213-216` goes on after the
  first check has failed. Inputs: "2x", which parses to two koinu, and "abc.5", which parses to half
  a coin (`KoinuTexts.TwoX`, `KoinuTexts.AbcHalf`). A numeral at the front counts, not multiplied
  (`KoinuTexts.BrokenWhole`); without one, the whole coins count for nothing (`KoinuTexts.NoWhole`).
- **Amounts below one coin are printed without a terminator.** `koinu.c:148-160` writes ten
  characters and nothing behind them. The buffer reads as the amount if and only if the amount is
  at least a coin or the buffer had a NUL in place 10 before (`Koinu.PrintedText`); input: any
  amount below 100000000 and a buffer without that NUL.
- **Messages of more than 256 pieces are cut off.** The piece number and the count are bytes
  (`RadioDogeSharp/RadioDogeSharp/PacketHelper.cs:59-60`, `serdog/serdog.c:576-577`). A message
  arrives, once and whole, if and only if it has at most 49152 bytes (`Multipart.DeliveredExactly`);
  beyond that, the first thing handed on is a proper beginning of it (`Multipart.WrappedCount`).
- **The base-58 decoder never uses its first limb.** In
  `libdogecoin/libdogecoin-rd-dev/src/base58.c:52-126` a text whose value needs that limb is turned
  down, although its bytes fit the buffer. Input "zzzz" with four bytes (`Base58.ZzzzTurnedDown`).
  With a buffer as long as the text, exactly the lengths 5, 9, 10 and 13 or more are free of it
  (`Base58.RoomyExactly`); for a given text the condition is `Base58.Holdable`
  (`Base58Codec.Decode`, `Base58Check.CheckRoundTrip`).
- **A lost piece can mix two messages.** `RadioDogeSharp/RadioDogeSharp/MultipartPacket.cs:26-61`
  looks at the piece number and not at the message number. Input: two messages of 193 bytes, the
  last piece of the first one lost (`MultipartRuns.MixedUp`). Only whole messages are handed on if
  and only if no message completes the packet that an earlier one began, or what they make together
  happens to be a message of the run (`MultipartRuns.WholeExactly`); that is so in particular if
  every message arrives whole or without its first piece (`MultipartRuns.WholeOrHeadless`).

## Left out

- QR: qrcodegen_encodeSegments and encodeBinary, which only call the members modelled; Kanji segments, which the source can describe but not make. Segments are values: that their data may lie in tempBuffer, which the encoder uses after it has read them, is not modelled.
- PenaltyRuns.LineScoreIs: speaks of one row or column; their sum is that of `PenaltyFacts.ScoreParts`.
- Integer widths of sizes, lengths and counters are not modelled except where a result depends on them (bytes, 16-bit slices, 32-bit words, the 64-bit amounts, the 16-bit bit counts of QR segments).
- Base58Check.EncodeCheck: the double hash is any function that returns at least four bytes; its failure is not modelled.
- Base58Check.DecodeCheck: the hash is any function. Whether SHA-256 applied twice stamps zeros with zeros for some admitted length, so that the comparison of zeros could leave the buffer, is not part of this model.
- Scrypt.ScryptGeneric: PBKDF2 is any function that returns the number of bytes asked for; the alignment of the scratchpad and the choice of the form at run time are left out.
- AesKeys.AesSetup: takes keys of at least four words, as AES has; shorter ones are outside the source's use.
- Constant-time behaviour, wiping of memory and allocation failures.
- Cbc.CbcEncrypt: input and output are different buffers; encrypting in place is not modelled. The same holds for decrypting.
- uthash: Bloom filters, out-of-memory recovery, ordered insertion, HASH_SELECT, HASH_CLEAR. The hash of a key is any function.
- Framing.Node.ReadCb: the handler sees a header and its payload, not the rest of the buffer behind it, and decides only about the connection; disconnects from outside and timers are left out.
- JpegBlocks.EncodeBlockImpl: requires differences and coefficients for which the code tables have an entry, as they have for quantised 8-bit samples; the source would read behind its tables. Headers, DCT and quantisation are left out.
- JpegScan.EncodeScan: requires the same of the blocks of the scan.
- Koinu.CoinsToKoinuStr: requires a text that stays in the scratch string; beyond that the behaviour of the source is undefined. strtoull is modelled for base ten in the C locale.
- MultipartRuns.RunMeans: the pieces of one message arrive in their order; `Multipart.OnlyTheMessage` has no such condition.
- Multipart.Receive: pieces of at least ten bytes from one sender at a time; the message number is not checked by the source either. Serial and radio input and output, and pauses, are left out.
- The remaining programs of the repository (wallet, transactions, menus, displays, firmware) are not part of this model.
