# Models and proofs for the algorithms of the blockchain nodes

The repository is a small blockchain node, written several times over; its C++ versions bundle the algorithms they use.
This project models the parts where the difficult reasoning is, and proves what they are for. Run
`dafny verify dfyconfig.toml` (Dafny 4.11).

- **Punycode** (`PunycodeDigits`, `PunycodeStates`, `Punycode`, `PunycodePositions`, `PunycodeDistances`,
  `PunycodeAdapt`, `PunycodeCodec`, `PunycodeEncoder`, `PunycodeSamples`) over **UTF-8** (`Utf8`, `Utf8Order`), and host
  names (`Hostname`, `HostnameReturn`, with `Splitting`). Section 6 of RFC 3492 is read as a machine of single skips and insertions; the encoder's jumps and the
  decoder's divisions are both proved to be runs of it.
- **SHA-256** (`Bits`, `Sha256Block`, `Sha256Constants`, `Sha256Stream`, `Sha256Counter`, `Sha256Hasher`): FIPS 180-4 on
  32-bit words, and PicoSHA2's wide words and streaming object. `NativeWords` and `Sha256Native` carry the specification
  over to Dafny's bit-vectors, on which `Sha256Sample` works out the standard's example.
- **HTTP** (`HappyHttp`, `HappyHttpResponse`, `HttplibChunked`, `ChunkedCoding`, `Truncation`, `HttplibResponse`,
  `ResponseRoundTrip`, `Arrival`, `Connection`, `ResponseForms`, `SpoiltChunks`, `HttpText`, with `CStrings`): the
  incremental response parser, cpp-httplib's chunked coding, which of the responses that httplib writes the parser reads,
  and what both make of what httplib does not write.
- **Wildcards** (`Wildcard`): the two matchers.
- **URLs** (`UrlEscape`, `UrlDelimiters`, `AbsPath`, `PathLaws`, `Url`): percent-escaping and dot segments.
- **The network** (`Blockchain`, `Network`, `Conservation`, `NetworkExamples`): the Rust node and whole runs of many of
  them.

A module states what a piece of code computes as functions on values. The code itself, with its loops, arrays and fields,
is a method or a class proved to compute that, and the lemmas are about the functions.

Where a promise turned out to be false of the code, the code is kept, an input shows the failure and the exact condition
is proved: Punycode's round trip on long inputs (`PositionsFit`, stricter than the encoder's own `DistancesFit`), host
names that do not come back, the message length in one call longer than `word_t` can count, responses that HappyHTTP does
not read as httplib wrote them (`ArrivesIff`), versions and interim responses in HappyHTTP (`VersionIs`,
`InterimLeavesItsMark`), chunks that httplib drops in silence (`SpoiltTerminator`), escaping with "%" safe, absolute
paths that climb above their root, truncated bodies in httplib's reader, agreement after a tie, conservation of
transactions across an adoption. The author's remark in `decode` that its last overflow throw cannot be reached is true (`WeightFits`, `Decode`).

## Model

| member | source | states |
|---|---|---|
| `Punycode.DecodeUndoesEncode` | blockchain-cpp-crow/src/url-cpp/punycode.cpp:11-130 | the code points of a string are what decoding its encoding gives, exactly when the encoder succeeds and no decoder position passes 32 bits |
| `PunycodePositions.DecodeUndoesEncodeIff` | blockchain-cpp-crow/src/url-cpp/punycode.cpp:179-325 | for every sequence of 32-bit code points: decode(encode(x)) = x if and only if `PositionsFit`, a condition on the code points alone |
| `PunycodePositions.DecodableIsPositionsFit` | blockchain-cpp-crow/src/url-cpp/punycode.cpp:241-246 | the decoder's check on `i` passes at every insertion exactly when each insertion position, computed from the code points below it, fits 32 bits |
| `PunycodePositions.UnicodeStringsRoundTrip` | blockchain-cpp-crow/src/url-cpp/punycode.cpp:60-79 | up to 3855 code points of at most 0x10FFFF encode without failure and decode to themselves, so no overflow throw is reached on either side |
| `PunycodePositions.ShortStringsFit` | blockchain-cpp-crow/src/url-cpp/punycode.cpp:241-246 | the same for any bound on the code points whose product with the length stays within 32 bits |
| `PunycodePositions.RoundTripCanFail` | blockchain-cpp-crow/src/url-cpp/punycode.cpp:59-64 | 5000 valid code points that `encode` accepts and whose encoding `decode` rejects: the round trip is not unconditional |
| `PunycodeDistances.EncodesIff` | blockchain-cpp-crow/src/url-cpp/punycode.cpp:59-79 | the encoder succeeds if and only if `DistancesFit`: at every insertion the distance from the one before, computed from the code points alone, fits 32 bits |
| `PunycodeDistances.AllFitIsNearFrom` | blockchain-cpp-crow/src/url-cpp/punycode.cpp:69-124 | from any state between two insertions, the deltas still to come fit exactly when the distances of the insertions still to come do |
| `PunycodeStates.ApplyOfDeltas` | blockchain-cpp-crow/src/url-cpp/punycode.cpp:46-126 | the decoder's insertions, driven by the encoder's deltas, rebuild the string from any synchronised state |
| `PunycodeStates.DeltasOfApply` | blockchain-cpp-crow/src/url-cpp/punycode.cpp:297-314 | the encoder's deltas of a string the decoder built are the deltas it was built from |
| `PunycodeStates.AdvanceOneMore` | blockchain-cpp-crow/src/url-cpp/punycode.cpp:300-308 | the decoder's division and remainder are that many single skips: one more skip is one more position, or the start of the next code point |
| `PunycodeDigits.ParseDigits` | blockchain-cpp-crow/src/url-cpp/punycode.cpp:86-110 | reading the digits the encoder writes for q adds q * w to `i` and consumes exactly those digits, or overflows exactly when the sum leaves 32 bits |
| `PunycodeDigits.ParsedIsCanonical` | blockchain-cpp-crow/src/url-cpp/punycode.cpp:225-295 | every lowercase digit string the decoder accepts is the one the encoder writes for its value |
| `PunycodeDigits.DigitsAreBasic` | blockchain-cpp-crow/src/url-cpp/punycode.cpp:103-110 | written digits are lowercase ASCII, decodable, and never the delimiter |
| `PunycodeDigits.AdaptBound` | blockchain-cpp-crow/src/url-cpp/punycode.cpp:273-274 | `adapt` never exceeds 204, for every 32-bit delta and every positive number of points |
| `PunycodeDigits.AdaptBias` | blockchain-cpp-crow/src/url-cpp/punycode.cpp:376-406 | the loop on 32-bit words: nothing wraps, and the result is `Adapt` (what that is, `PunycodeAdapt.AdaptIs` says), at most 204 |
| `PunycodeAdapt.AdaptIs` | blockchain-cpp-crow/src/url-cpp/punycode.cpp:376-406 | `adapt` in closed form: with d a 700th of the delta at first and half of it later, e = d + d / numpoints, and m the least number for which x = e / 35^m is at most 455, it is 36 * m + 36 * x / (x + 38) |
| `PunycodeAdapt.AdaptGrows` | blockchain-cpp-crow/src/url-cpp/punycode.cpp:389 | a larger delta never gives a smaller bias, and the first adaptation never a larger one than a later one |
| `PunycodeSamples.WordEncodes` | blockchain-cpp-crow/src/url-cpp/punycode.cpp:11-325 | g, r, U+00F6, U+00DF, e encodes to "gre-6ka8i" and decodes from it |
| `PunycodeSamples.QuestionEncodes` | blockchain-cpp-crow/src/url-cpp/punycode.cpp:11-325 | sample (B) of section 7.1 of RFC 3492, nine ideographs and "ihqwcrb4cv8a8dqg056pqjye", in both directions |
| `PunycodeSamples.DigitTable` | blockchain-cpp-crow/src/url-cpp/punycode.h:28-53 | digits are a to z and then 0 to 9, and capitals are read as their letters |
| `PunycodeCodec.WeightFits` | blockchain-cpp-crow/src/url-cpp/punycode.cpp:259-294 | after the check on `i`, w * (36 - t) fits 32 bits for every bias up to 204: the throw "Overflow on w" cannot be reached |
| `PunycodeCodec.DecodeDelta` | blockchain-cpp-crow/src/url-cpp/punycode.cpp:219-295 | one number is read as `ParseDelta` says, with the source's quotient checks on 32-bit words, and never fails on w |
| `PunycodeCodec.DecodeNext` | blockchain-cpp-crow/src/url-cpp/punycode.cpp:297-314 | one turn of the main loop: number, new bias, division into n and i, insertion |
| `PunycodeCodec.DecodeExtended` | blockchain-cpp-crow/src/url-cpp/punycode.cpp:216-315 | the main loop decodes the whole extended part, or fails as specified, never on w |
| `PunycodeCodec.WritePoints` | blockchain-cpp-crow/src/url-cpp/punycode.cpp:317-322 | the code points are written as UTF-8 in order, or fail as the writer does |
| `PunycodeCodec.Decode` | blockchain-cpp-crow/src/url-cpp/punycode.cpp:179-325 | `decode` computes `Decoded` for every string and never throws "Overflow on w" |
| `PunycodeCodec.DecodeUndoesEncodeBytes` | blockchain-cpp-crow/src/url-cpp/punycode.cpp:132-137 | on bytes: decode(encode(s)) = s if and only if s is shortest-form UTF-8 and its positions fit |
| `PunycodeCodec.EncodeUndoesDecodeBytes` | blockchain-cpp-crow/src/url-cpp/punycode.cpp:327-332 | encode(decode(s)) = s for every decodable s without capitals after its last delimiter |
| `Punycode.EncodeUndoesDecode` | blockchain-cpp-crow/src/url-cpp/punycode.cpp:192-315 | the same on code points, which are then decodable themselves |
| `Punycode.DecodeIsInjective` | blockchain-cpp-crow/src/url-cpp/punycode.cpp:192-315 | two strings without capitals in the extended part never decode alike |
| `Punycode.EncodeTextIsBasic` | blockchain-cpp-crow/src/url-cpp/punycode.cpp:89-110 | every byte of the encoder's extended part is a digit the decoder knows, in lower case |
| `PunycodeEncoder.EmitDigits` | blockchain-cpp-crow/src/url-cpp/punycode.cpp:85-110 | the inner loop over k writes `Digits` of the delta |
| `PunycodeEncoder.NextCodePoint` | blockchain-cpp-crow/src/url-cpp/punycode.cpp:49-57 | the minimum search finds the least code point of the input that is not below n |
| `PunycodeEncoder.Jump` | blockchain-cpp-crow/src/url-cpp/punycode.cpp:59-67 | adding (m - n) * (h + 1) to delta is walking the empty rows between n and m one skip at a time |
| `PunycodeEncoder.PassStep` | blockchain-cpp-crow/src/url-cpp/punycode.cpp:70-121 | one code point of the pass is one step of the insertion machine: a skip below n, an insertion at n, nothing above |
| `PunycodeEncoder.EncodeStep` | blockchain-cpp-crow/src/url-cpp/punycode.cpp:72-120 | one turn of the pass on 32-bit words keeps what is still to be written, or fails exactly when a delta does not fit |
| `PunycodeEncoder.EncodePass` | blockchain-cpp-crow/src/url-cpp/punycode.cpp:69-121 | a whole pass does |
| `PunycodeEncoder.EncodeExtended` | blockchain-cpp-crow/src/url-cpp/punycode.cpp:46-126 | the main loop writes the digits of all deltas, or fails exactly when one leaves 32 bits; the unchecked increments do not wrap |
| `PunycodeEncoder.ReadPoints` | blockchain-cpp-crow/src/url-cpp/punycode.cpp:23-34 | the reading loop gives the code points and the basic ones among them, or the reader's error |
| `PunycodeEncoder.Encode` | blockchain-cpp-crow/src/url-cpp/punycode.cpp:11-130 | `encode` computes `Encoded` for every string |
| `Hostname.HostnameRoundTrip` | blockchain-cpp-crow/src/url-cpp/punycode.cpp:139-366 | for every host name: decodeHostname(encodeHostname(h)) = h if and only if every non-ASCII label is shortest-form with positions that fit, and no ASCII label starts with "xn--" |
| `HostnameReturn.HostnameReturnsIff` | blockchain-cpp-crow/src/url-cpp/punycode.cpp:139-366 | for every host name: encodeHostname(decodeHostname(h)) = h if and only if every label either is ASCII without the prefix, or decodes, with something after its last delimiter and no capital there |
| `HostnameReturn.LabelReturnsIff` | blockchain-cpp-crow/src/url-cpp/punycode.cpp:342-351 | the same for one label |
| `HostnameReturn.NamesThatDoNotComeBack` | blockchain-cpp-crow/src/url-cpp/punycode.cpp:342-346 | neither round trip keeps "xn--abc-": it decodes to "abc", and both "abc" and "xn--abc-" are encoded as they stand |
| `PunycodeSamples.WordHostname` | blockchain-cpp-crow/src/url-cpp/punycode.cpp:139-366 | the same word in UTF-8 under ".de" is the host name "xn--gre-6ka8i.de", in both directions |
| `Hostname.EncodeHostname` | blockchain-cpp-crow/src/url-cpp/punycode.cpp:139-177 | the loop over the labels computes `EncodedHostname` |
| `Hostname.DecodeHostname` | blockchain-cpp-crow/src/url-cpp/punycode.cpp:334-366 | the loop over the labels computes `DecodedHostname` |
| `Hostname.LabelRoundTrip` | blockchain-cpp-crow/src/url-cpp/punycode.cpp:154-162 | one label survives exactly under its condition, and its encoding is ASCII without a dot |
| `Splitting.SplitOfJoined` | blockchain-cpp-crow/src/url-cpp/punycode.cpp:166-173 | parts that do not contain the separator are found again after joining |
| `Splitting.SplitProperties` | blockchain-cpp-crow/src/url-cpp/punycode.cpp:149-153 | splitting loses nothing and leaves no separator inside a part |
| `Splitting.SplitFrom` | blockchain-cpp-crow/src/url-cpp/punycode.cpp:150-173 | the repeated `find` meets the parts one after the other |
| `Utf8.ReadCodepoint` | blockchain-cpp-crow/src/url-cpp/utf8.cpp:10-69 | the reader with its iterator computes `ReadFirst`: value, position after it, or error; no bit is shifted out of 32 bits |
| `Utf8.ReadContinuation` | blockchain-cpp-crow/src/url-cpp/utf8.cpp:48-61 | the loop takes six bits of each continuation byte |
| `Utf8.WriteCodepoint` | blockchain-cpp-crow/src/url-cpp/utf8.cpp:71-148 | the writer appends the RFC 3629 form, computed by shifting a 32-bit word, and rejects exactly the values above 0x10FFFF |
| `Utf8.AppendContinuation` | blockchain-cpp-crow/src/url-cpp/utf8.cpp:142-145 | the loop takes the top six bits of the word each time |
| `Utf8.ReadAllOfWriteAll` | blockchain-cpp-crow/src/url-cpp/utf8.cpp:10-148 | writing any code points and reading them back gives them, and consumes every byte |
| `Utf8.WriteAllOfReadAll` | blockchain-cpp-crow/src/url-cpp/utf8.cpp:20-61 | re-writing what was read restores the bytes if and only if they were in shortest form (the reader accepts overlong forms) |
| `Utf8.ReadAllBound` | blockchain-cpp-crow/src/url-cpp/utf8.cpp:37-42 | the reader yields values below 2^21, at most one per byte |
| `Utf8Order.FormsKeepOrder` | blockchain-cpp-crow/src/url-cpp/utf8.cpp:71-148 | written strings are ordered byte by byte as their code points are |
| `Utf8Order.FirstByteTells` | blockchain-cpp-crow/src/url-cpp/utf8.cpp:71-148 | bytes from 0x80 to 0xBF stand in all places of a character but the first, which tells their number |
| `Sha256Block.HashBlock` | blockchain-cpp-crow/src/PicoSHA2/picosha2.h:91-140 | for every block, every state of 32-bit words and a `word_t` of any width that is a multiple of 32 bits, the digest becomes the FIPS 180-4 compression (with constants and an example proved below) and stays 32-bit |
| `Sha256Block.RunRounds` | blockchain-cpp-crow/src/PicoSHA2/picosha2.h:108-128 | the 64 rounds with late masking compute the FIPS 180-4 working variables; by the loop invariant all eight are 32-bit words after every round |
| `Sha256Block.RoundStored` | blockchain-cpp-crow/src/PicoSHA2/picosha2.h:118-127 | masking only the two stored sums gives the same words as 32-bit addition throughout |
| `Sha256Block.FillSchedule` | blockchain-cpp-crow/src/PicoSHA2/picosha2.h:95-106 | the schedule array holds the FIPS 180-4 message schedule |
| `Sha256Block.AddBack` | blockchain-cpp-crow/src/PicoSHA2/picosha2.h:129-139 | the unmasked additions to the digest, masked at the end, are 32-bit additions |
| `Sha256Block.WideRotRIsRotR` | blockchain-cpp-crow/src/PicoSHA2/picosha2.h:73-76 | rotating with a shift at full width and one mask is the 32-bit rotation |
| `Sha256Block.WideChIsCh` | blockchain-cpp-crow/src/PicoSHA2/picosha2.h:67 | `ch` with a complement at full width is the 32-bit one on 32-bit words |
| `Sha256Block.WideBigEndianIsBigEndian` | blockchain-cpp-crow/src/PicoSHA2/picosha2.h:98-101 | joining bytes by shift and or is the big-endian value |
| `Sha256Constants.KIsCubeRoot` | blockchain-cpp-crow/src/PicoSHA2/picosha2.h:50-61 | the constant of round t is the first 32 bits of the fractional part of the cube root of the prime with number t |
| `Sha256Constants.InitialIsSquareRoot` | blockchain-cpp-crow/src/PicoSHA2/picosha2.h:63-65 | the words of the initial digest are those of the square roots of the first eight primes |
| `Sha256Constants.PrimesAreFirst` | blockchain-cpp-crow/src/PicoSHA2/picosha2.h:50-61 | the list of primes starts with the first and goes on with the next one each time |
| `NativeWords.ValPlus` | blockchain-cpp-crow/src/PicoSHA2/picosha2.h:118-127 | addition of machine words is addition modulo 2^32 of the numbers they stand for |
| `NativeWords.ValXor` | blockchain-cpp-crow/src/PicoSHA2/picosha2.h:67-89 | the exclusive or of machine words is that of the numbers they stand for, bit by bit |
| `NativeWords.ValRotR` | blockchain-cpp-crow/src/PicoSHA2/picosha2.h:73-76 | a shift right joined with a shift left of machine words is the rotation of the numbers they stand for |
| `Sha256Native.RoundIs` | blockchain-cpp-crow/src/PicoSHA2/picosha2.h:118-127 | a round on machine words is the round of the specification, for all words |
| `Sha256Native.NextRowIs` | blockchain-cpp-crow/src/PicoSHA2/picosha2.h:102-106 | eight words of the schedule from the sixteen before them, for every block |
| `Sha256Native.EightRoundsAre` | blockchain-cpp-crow/src/PicoSHA2/picosha2.h:108-128 | eight rounds with a row of constants and of the schedule, for every block and state |
| `Sha256Stream.StreamingIsOneShot` | blockchain-cpp-crow/src/PicoSHA2/picosha2.h:193-222 | for every message and every cut into pieces, the stream finalises to the fold of the compression over the message padded with its bit length modulo 2^64: below 2^61 bytes, the SHA-256 of sections 5.1.1 and 6.2 |
| `Sha256Stream.LengthFieldIsExact` | blockchain-cpp-crow/src/PicoSHA2/picosha2.h:248-268 | below 2^61 bytes the 64-bit field is the exact bit length |
| `Sha256Sample.DigestOfAbc` | blockchain-cpp-crow/src/PicoSHA2/picosha2.h:288-296 | SHA-256 of "abc" is ba7816bf 8f01cfea 414140de 5dae2223 b00361a3 96177a9c b410ff61 f20015ad |
| `Sha256Stream.AbsorbConcat` | blockchain-cpp-crow/src/PicoSHA2/picosha2.h:194-203 | processing two pieces equals processing their concatenation |
| `Sha256Stream.PaddingFills` | blockchain-cpp-crow/src/PicoSHA2/picosha2.h:205-222 | padding ends on a block boundary: one block when at most 55 bytes remain, two otherwise |
| `Sha256Hasher.Hasher.constructor` | blockchain-cpp-crow/src/PicoSHA2/picosha2.h:184-191 | a new hasher stands for the empty stream |
| `Sha256Hasher.Hasher.Process` | blockchain-cpp-crow/src/PicoSHA2/picosha2.h:193-203 | `process` absorbs any bytes: digest of all complete blocks, residual buffer below 64 bytes, and the length as counted in a `word_t` that may wrap |
| `Sha256Hasher.Hasher.HashBlocks` | blockchain-cpp-crow/src/PicoSHA2/picosha2.h:197-201 | the loop folds the compression over the complete blocks |
| `Sha256Hasher.Hasher.Finish` | blockchain-cpp-crow/src/PicoSHA2/picosha2.h:205-222 | both padding paths leave the digest of the padded message |
| `Sha256Hasher.Hasher.AddToDataLength` | blockchain-cpp-crow/src/PicoSHA2/picosha2.h:235-247 | the four-digit counter, its lowest digit added modulo the width of `word_t`, counts `Counted` and keeps its digits below 65536 |
| `Sha256Counter.CountIsExactIff` | blockchain-cpp-crow/src/PicoSHA2/picosha2.h:237 | the count is right modulo 2^64 exactly when what wraps around is a multiple of 2^64 |
| `Sha256Counter.CountIsExactBelow` | blockchain-cpp-crow/src/PicoSHA2/picosha2.h:237 | below 2^64: exactly when the lowest digit and the call's length fit one `word_t` |
| `Sha256Counter.CountingStreamIsExactIff` | blockchain-cpp-crow/src/PicoSHA2/picosha2.h:193-203 | below 2^64 bytes, any sequence of calls leaves the stream as it should be if and only if each of them fits; its hash is then that of the whole |
| `Sha256Counter.PaddedAsStandardIff` | blockchain-cpp-crow/src/PicoSHA2/picosha2.h:205-222 | a message below 2^61 bytes hashed in one call is padded as section 5.1.1 asks if and only if its length fits `word_t` |
| `Sha256Counter.OneCallCanMiscount` | blockchain-cpp-crow/src/PicoSHA2/picosha2.h:237 | 2^32 bytes in one call with a 32-bit `word_t` are padded as if there were none |
| `Sha256Hasher.Hasher.BitLengthDigits` | blockchain-cpp-crow/src/PicoSHA2/picosha2.h:249-261 | the shift loop gives the digits of the bit length |
| `Sha256Hasher.Hasher.WriteDataBitLength` | blockchain-cpp-crow/src/PicoSHA2/picosha2.h:248-268 | the last eight bytes of the block become the bit length modulo 2^64, big-endian; the first 56 stay |
| `Sha256Hasher.Hasher.GetHashBytes` | blockchain-cpp-crow/src/PicoSHA2/picosha2.h:224-232 | at most the requested number of digest bytes, most significant first |
| `Sha256Hasher.CarryAdds` | blockchain-cpp-crow/src/PicoSHA2/picosha2.h:236-246 | the carry loop adds at its digit's place, modulo 2^64 |
| `Sha256Hasher.BitLengthIsTimesEight` | blockchain-cpp-crow/src/PicoSHA2/picosha2.h:253-261 | shifting the digits three bits with carries multiplies by eight modulo 2^64 |
| `Sha256Hasher.HashRandomAccess` | blockchain-cpp-crow/src/PicoSHA2/picosha2.h:288-296 | the random-access entry hashes the message with its length modulo the width of `word_t`: the SHA-256 digest when the length fits |
| `Sha256Hasher.HashSinglePass` | blockchain-cpp-crow/src/PicoSHA2/picosha2.h:298-317 | the buffered entry returns the SHA-256 digest for every message and every positive `int` buffer size |
| `HappyHttp.FragmentationIndependence` | blockchain-cpp-crow/src/HappyHTTP/happyhttp.cpp:571-638 | for every state and byte stream, any cut of the stream gives the same fields, delivered data, completion, bytes used and failure as the whole |
| `HappyHttp.FeedConcat` | blockchain-cpp-crow/src/HappyHTTP/happyhttp.cpp:571-638 | pumping a then b is pumping a + b |
| `HappyHttp.IncompleteUsesAll` | blockchain-cpp-crow/src/HappyHTTP/happyhttp.cpp:571-638 | a pump that does not complete the response uses every byte |
| `HappyHttp.TruncationIsNoticed` | blockchain-cpp-crow/src/HappyHTTP/happyhttp.cpp:548-638 | a stream that completes a response at its last byte, cut anywhere before it, leaves a response for which a closed connection is an error |
| `HappyHttp.FeedKeepsInv` | blockchain-cpp-crow/src/HappyHTTP/happyhttp.cpp:662-720 | over every run: bytes counted equal bytes delivered, an open chunk has bytes left, a counted body never exceeds its length and is complete exactly there, and the begin and complete callbacks come once each, after the headers and at the end |
| `HappyHttp.DeliversLess` | blockchain-cpp-crow/src/HappyHTTP/happyhttp.cpp:571-638 | over every run that starts with a line to read, fewer bytes are delivered than arrive |
| `HappyHttpResponse.DeliverInOnePiece` | blockchain-cpp-crow/src/HappyHTTP/happyhttp.cpp:664-710 | handing over n bytes at once is handing them over one by one, as long as they fit the chunk or the counted body |
| `HappyHttpResponse.Response.constructor` | blockchain-cpp-crow/src/HappyHTTP/happyhttp.cpp:501-513 | a new response is the machine's start state |
| `HappyHttpResponse.Response.Pump` | blockchain-cpp-crow/src/HappyHTTP/happyhttp.cpp:571-638 | one call of `pump` terminates and gives exactly the state, bytes used or failure of the byte machine |
| `HappyHttpResponse.Response.PumpLine` | blockchain-cpp-crow/src/HappyHTTP/happyhttp.cpp:584-622 | accumulating a line, dropping CR, and processing it |
| `HappyHttpResponse.Response.PumpBody` | blockchain-cpp-crow/src/HappyHTTP/happyhttp.cpp:624-633 | a pass over body data uses a byte or completes the response |
| `HappyHttpResponse.Response.ProcessLine` | blockchain-cpp-crow/src/HappyHTTP/happyhttp.cpp:592-614 | the line goes to the handler of the state, and the buffer is cleared |
| `HappyHttpResponse.Response.ParseStatusLine` | blockchain-cpp-crow/src/HappyHTTP/happyhttp.cpp:723-748 | version, status code and reason by skipping and collecting |
| `HappyHttpResponse.Response.ProcessStatusLine` | blockchain-cpp-crow/src/HappyHTTP/happyhttp.cpp:723-770 | accepts statuses 100 to 999 and the two version forms the source tests, else fails |
| `HappyHttpResponse.Response.FlushHeader` | blockchain-cpp-crow/src/HappyHTTP/happyhttp.cpp:774-800 | the accumulated header is stored under its lowercase name |
| `HappyHttpResponse.Response.ProcessHeaderLine` | blockchain-cpp-crow/src/HappyHTTP/happyhttp.cpp:803-835 | end of headers, continuation line, or a new header |
| `HappyHttpResponse.Response.BeginBody` | blockchain-cpp-crow/src/HappyHTTP/happyhttp.cpp:853-911 | chunked, counted or read-until-close, from the headers, status and method; the callback is invoked |
| `HappyHttpResponse.Response.CheckTransferCoding` | blockchain-cpp-crow/src/HappyHTTP/happyhttp.cpp:856-866 | the chunked test and the reset of the body fields |
| `HappyHttpResponse.Response.CheckContentLength` | blockchain-cpp-crow/src/HappyHTTP/happyhttp.cpp:870-884 | the length, zero for responses without a body |
| `HappyHttpResponse.Response.CheckClose` | blockchain-cpp-crow/src/HappyHTTP/happyhttp.cpp:915-937 | whether the connection closes |
| `HappyHttpResponse.Response.ProcessChunkLenLine` | blockchain-cpp-crow/src/HappyHTTP/happyhttp.cpp:642-657 | a chunk size, or the move to the trailers at zero |
| `HappyHttpResponse.Response.ProcessDataChunked` | blockchain-cpp-crow/src/HappyHTTP/happyhttp.cpp:662-684 | delivers at most the rest of the chunk |
| `HappyHttpResponse.Response.ProcessDataNonChunked` | blockchain-cpp-crow/src/HappyHTTP/happyhttp.cpp:688-710 | delivers at most the rest of a counted body and completes at its end |
| `HappyHttpResponse.Response.ProcessTrailerLine` | blockchain-cpp-crow/src/HappyHTTP/happyhttp.cpp:838-846 | an empty line completes |
| `HappyHttpResponse.Response.Finish` | blockchain-cpp-crow/src/HappyHTTP/happyhttp.cpp:713-720 | the state becomes complete and the callback is invoked |
| `HappyHttpResponse.Response.NotifyConnectionClosed` | blockchain-cpp-crow/src/HappyHTTP/happyhttp.cpp:548-567 | a close is accepted exactly when complete or in a read-until-close body |
| `HttplibChunked.StreamLineReader.Append` | blockchain-cpp/src/cpp-httplib/httplib.h:512-523 | one more byte, in the NUL-terminated fixed buffer or, when full, in the string; the text grows by exactly that byte |
| `HttplibChunked.StreamLineReader.Ptr` | blockchain-cpp/src/cpp-httplib/httplib.h:469-475 | the C string seen through `ptr` is that of the text, whichever buffer holds it |
| `HttplibChunked.StreamLineReader.GetLine` | blockchain-cpp/src/cpp-httplib/httplib.h:485-509 | reads exactly the next line, for any buffer of at least two bytes |
| `HttplibChunked.LineFrom` | blockchain-cpp/src/cpp-httplib/httplib.h:489-506 | how a line grows byte by byte until its line feed or the end of the stream |
| `HttplibChunked.ReadContentWithLength` | blockchain-cpp/src/cpp-httplib/httplib.h:867-883 | exactly len bytes, whatever pieces the reads bring; fails exactly when the stream is shorter |
| `HttplibChunked.ReadContentChunked` | blockchain-cpp/src/cpp-httplib/httplib.h:910-943 | the loop computes `ReadChunked`: body, verdict and unread rest, or the exception of `stoi`, for any line buffer size |
| `CStrings.FromIToHex` | blockchain-cpp/src/cpp-httplib/httplib.h:1049-1057 | the digit loop gives the hexadecimal numeral |
| `CStrings.HexParses` | blockchain-cpp/src/cpp-httplib/httplib.h:1049-1057 | `strtol` and `stoi` in base 16 read that numeral back |
| `ChunkedCoding.WriteStreamed` | blockchain-cpp/src/cpp-httplib/httplib.h:1664-1680 | the loop writes every piece as a chunk and ends with the empty one |
| `ChunkedCoding.HttplibReadsWhatItWrote` | blockchain-cpp/src/cpp-httplib/httplib.h:910-943 | reading what was written gives the whole body and stops at its last byte; throws if and only if a piece is larger than `stoi` can read |
| `ChunkedCoding.HappyHttpReadsChunks` | blockchain-cpp-crow/src/HappyHTTP/happyhttp.cpp:642-684 | HappyHTTP's chunk states give the same body and complete at the same byte, if and only if every size fits; else they fail |
| `ChunkedCoding.DecodersAgree` | blockchain-cpp/src/cpp-httplib/httplib.h:910-943 | the two decoders give the same body and stop at the same byte, or both fail for a size that does not fit, under any fragmentation on the way to HappyHTTP and with anything after the body |
| `HttplibResponse.WriteResponse` | blockchain-cpp/src/cpp-httplib/httplib.h:1614-1681 | status line, connection, type, length or coding headers, blank line and body are written as `Written` says, streamed or not |
| `HttplibResponse.SetHeaderCounts` | blockchain-cpp/src/cpp-httplib/httplib.h:1405-1407 | a header that is set is written after all others of its name, up to case, so it is the one that counts |
| `HttplibResponse.HasHeaderIff` | blockchain-cpp/src/cpp-httplib/httplib.h:824-826 | a header is found exactly when its name, in lower case, has a value |
| `HttplibResponse.SameKeyIff` | blockchain-cpp/src/cpp-httplib/httplib.h:105-112 | names are one key of the multimap exactly when they are equal up to case |
| `HttplibResponse.WriteUnchunked` | blockchain-cpp/src/cpp-httplib/httplib.h:1671-1679 | a streamed body under the handler's own length is written without coding |
| `HttplibResponse.MessagesAreGood` | blockchain-cpp/src/cpp-httplib/httplib.h:806-822 | every status message stays on its line |
| `Arrival.ArrivesIff` | blockchain-cpp/src/cpp-httplib/httplib.h:1614-1681 | for every response with headers that can be written: what `write_response` writes makes HappyHTTP complete at its last byte with the same status, message, headers and body, each callback invoked once, if and only if the request was not HEAD, the status is 101 to 999, and either the writer codes the stream in chunks whose sizes fit, or the status may have a body, the handler did not call it chunked, it is not empty and it has the declared length |
| `Arrival.ArrivesInFragments` | blockchain-cpp-crow/src/HappyHTTP/happyhttp.cpp:571-638 | a response that arrives does so however it is cut and with anything after it |
| `Arrival.TruncatedResponseIsRefused` | blockchain-cpp-crow/src/HappyHTTP/happyhttp.cpp:548-567 | a response that arrives, cut anywhere before its end, is refused when the connection closes |
| `Arrival.CodedArrivesIff` | blockchain-cpp/src/cpp-httplib/httplib.h:1633-1680 | a stream the writer codes arrives if and only if the request was not HEAD and every size fits; no status is excluded |
| `Arrival.CountedArrivesIff` | blockchain-cpp/src/cpp-httplib/httplib.h:1633-1675 | a body, or a stream under the handler's own Content-Length, not called chunked: arrives if and only if the request was not HEAD, the status may have a body, it is not empty, and the declared length is its own |
| `Arrival.CalledChunkedDoesNotArrive` | blockchain-cpp-crow/src/HappyHTTP/happyhttp.cpp:856-866 | what the writer does not code but the handler calls chunked never arrives, whatever its bytes |
| `Arrival.OtherStatusDoesNotArrive` | blockchain-cpp-crow/src/HappyHTTP/happyhttp.cpp:755-769 | nor does a response of status 100 or outside 100 to 999 |
| `Arrival.NothingExpectedWaits` | blockchain-cpp-crow/src/HappyHTTP/happyhttp.cpp:870-884 | HEAD, a status without body, or a declared length of 0: all but the body arrives, any body is left unread, and the response completes only on a byte beyond the head |
| `Arrival.HeadOfStreamWaitsForAChunk` | blockchain-cpp-crow/src/HappyHTTP/happyhttp.cpp:856-866 | HEAD for a stream the writer codes: after the last byte written the parser waits for a chunk, and the connection may not close |
| `Arrival.HeadOfStreamDoesNotArrive` | blockchain-cpp/src/cpp-httplib/httplib.h:1633-1637 | an instance: HEAD for an empty stream |
| `Arrival.BodyOf204DoesNotArrive` | blockchain-cpp/src/cpp-httplib/httplib.h:1645-1658 | an instance: "a" with status 204 is left unread |
| `Arrival.ShortStreamDoesNotArrive` | blockchain-cpp/src/cpp-httplib/httplib.h:1671-1679 | an instance: "a" streamed under a Content-Length of 2 |
| `Arrival.StreamedFraming` | blockchain-cpp/src/cpp-httplib/httplib.h:1633-1637 | the writer marks a streamed response as chunked and gives it no length |
| `Arrival.CountedFraming` | blockchain-cpp/src/cpp-httplib/httplib.h:1638-1658 | any other response declares the length of its body, or the one its handler set for a stream or an empty body, and is called chunked only by its handler |
| `Arrival.HandlersHeadersAreKept` | blockchain-cpp/src/cpp-httplib/httplib.h:1624-1661 | headers under names the writer does not set keep the handler's values |
| `Connection.WillCloseIff` | blockchain-cpp-crow/src/HappyHTTP/happyhttp.cpp:853-937 | for every written response, however much follows: `m_WillClose` after reading is true if and only if the connection is the last one, the request said "close", the handler did and the request did not say "Keep-Alive", or no length is known |
| `Connection.ConnectionWritten` | blockchain-cpp/src/cpp-httplib/httplib.h:1624-1631 | the Connection header that counts: "close", "Keep-Alive", or the handler's own |
| `Connection.FeedKeepsWillClose` | blockchain-cpp-crow/src/HappyHTTP/happyhttp.cpp:571-638 | nothing after the headers changes `m_WillClose` |
| `HttpText.PlainText` | blockchain-cpp/src/cpp-httplib/httplib.h:1614-1667 | the whole text of a response without headers of its own, letter by letter, for every status and body |
| `HttpText.StreamedText` | blockchain-cpp/src/cpp-httplib/httplib.h:1614-1681 | the same for a body streamed in one piece |
| `HttpText.Messages` | blockchain-cpp/src/cpp-httplib/httplib.h:806-822 | the messages of statuses 200, 302, 303 and 304 |
| `HttpText.OtherMessage` | blockchain-cpp/src/cpp-httplib/httplib.h:806-822 | the message of every status without one of its own |
| `HttpText.LookedUpNames` | blockchain-cpp-crow/src/HappyHTTP/happyhttp.cpp:853-937 | the header names and values that the parser looks for |
| `HttpText.SignedNumber` | blockchain-cpp-crow/src/HappyHTTP/happyhttp.cpp:755 | `atoi`: a blank is skipped, a sign counts, and what follows the digits does not |
| `HttpText.PrefixedNumber` | blockchain-cpp-crow/src/HappyHTTP/happyhttp.cpp:645 | `strtol` in base 16 takes a "0x" in front |
| `ResponseForms.VersionIs` | blockchain-cpp-crow/src/HappyHTTP/happyhttp.cpp:758-764 | for every version text: only "HTTP:/1.0" counts as 1.0, and whatever starts with "HTTP/1." as 1.1, "HTTP/1.0" too |
| `ResponseForms.InterimLeavesItsMark` | blockchain-cpp-crow/src/HappyHTTP/happyhttp.cpp:803-816 | after an interim response of status 100 the next one is read as if the reason and headers of the first stood before its own |
| `ResponseForms.FoldedLineJoins` | blockchain-cpp-crow/src/HappyHTTP/happyhttp.cpp:819-828 | a header continued on the next line is one header, with a space in between |
| `ResponseForms.TrailersAreSkipped` | blockchain-cpp-crow/src/HappyHTTP/happyhttp.cpp:838-846 | any number of trailers changes nothing; the response completes at the blank line |
| `ResponseForms.CloseDelimitedArrives` | blockchain-cpp-crow/src/HappyHTTP/happyhttp.cpp:548-567 | a response without a length and not chunked: all bytes are its body, however they are cut, and a close is its end |
| `SpoiltChunks.SpoiltTerminator` | blockchain-cpp/src/cpp-httplib/httplib.h:910-943 | anything between a chunk's data and its CRLF: httplib drops the chunk and reports a complete body; HappyHTTP keeps the data, ignores the rest of the line and goes on |
| `SpoiltChunks.NegativeSizePasses` | blockchain-cpp/src/cpp-httplib/httplib.h:918-942 | a negative size: the end of a complete body for httplib, a length out of range for HappyHTTP |
| `SpoiltChunks.NoSizeThrows` | blockchain-cpp/src/cpp-httplib/httplib.h:918 | a line without a number where a size should be: httplib throws, HappyHTTP reads the size 0 |
| `SpoiltChunks.TrailerIsRefused` | blockchain-cpp/src/cpp-httplib/httplib.h:937-940 | a trailer: httplib refuses the body, HappyHTTP skips the trailer and completes |
| `ResponseRoundTrip.CodedResponseArrives` | blockchain-cpp-crow/src/HappyHTTP/happyhttp.cpp:571-638 | any head that says chunked, whoever wrote it, and any chunks: the body arrives if the sizes fit, and reading fails if not |
| `ResponseRoundTrip.CountedResponseArrives` | blockchain-cpp-crow/src/HappyHTTP/happyhttp.cpp:571-638 | any head that gives the length of a non-empty body: the body arrives |
| `ResponseRoundTrip.EmptyResponseWaitsForAByte` | blockchain-cpp-crow/src/HappyHTTP/happyhttp.cpp:696-708 | a response of which no body is expected, by its method, status or length, completes only when another byte arrives, which is left unread |
| `ResponseRoundTrip.FeedCounted` | blockchain-cpp-crow/src/HappyHTTP/happyhttp.cpp:688-710 | a counted body of which too few, enough or too many bytes come: what is delivered, when it completes, and what is left |
| `Truncation.TruncatedBodyIsRefusedUnless` | blockchain-cpp/src/cpp-httplib/httplib.h:910-943 | httplib's reader refuses every truncated chunked body, except when the stream ends in good order between the CR and LF after a chunk; in either case it has exactly the data of the chunks before |
| `Truncation.TruncationCanPass` | blockchain-cpp/src/cpp-httplib/httplib.h:928 | the stream "1", CR, LF, "a", CR is reported as a complete, empty body |
| `Truncation.PrefixOfHex` | blockchain-cpp/src/cpp-httplib/httplib.h:918 | a size line cut short reads as a number that is no larger |
| `HttplibResponse.WriteHeaders` | blockchain-cpp/src/cpp-httplib/httplib.h:980-985 | the loop writes each header on its line and ends with a blank one |
| `ResponseRoundTrip.FeedHeaders` | blockchain-cpp-crow/src/HappyHTTP/happyhttp.cpp:774-835 | written headers are stored under their lowercase names, the last of several winning |
| `ResponseRoundTrip.StatusTextParses` | blockchain-cpp-crow/src/HappyHTTP/happyhttp.cpp:723-748 | a written status line is parsed into its parts |
| `HttplibResponse.DecParses` | blockchain-cpp/src/cpp-httplib/httplib.h:1657 | `atoi` reads back a written length |
| `Wildcard.WildCmp` | blockchain-cpp/src/doctest/doctest.h:3545-3579 | `wildcmp` terminates and returns 1 exactly when the recursive matcher accepts (up to folding of case when not case-sensitive) |
| `Wildcard.WildCardMatchAt` | blockchain-cpp/src/easyloggingpp/easylogging++.cc:862-884 | the recursive matcher decides `Matches` from any positions |
| `Wildcard.WildCardMatch` | blockchain-cpp/src/easyloggingpp/easylogging++.cc:862-884 | and for whole strings |
| `Wildcard.FirstFitIsEnough` | blockchain-cpp/src/doctest/doctest.h:3558-3573 | after the first fit of the stretch between two stars no earlier star need be tried again |
| `Wildcard.LiteralPrefix` | blockchain-cpp/src/easyloggingpp/easylogging++.cc:877-881 | a pattern that starts with a star-free stretch matches exactly when the stretch fits and the rest matches |
| `Wildcard.StarMatchesSuffix` | blockchain-cpp/src/easyloggingpp/easylogging++.cc:871-876 | a star matches exactly when the rest matches some suffix |
| `Wildcard.AtStar` | blockchain-cpp/src/doctest/doctest.h:3559-3564 | meeting a star keeps the invariant, and a final star decides |
| `Wildcard.AtMismatch` | blockchain-cpp/src/doctest/doctest.h:3569-3572 | going back to the last star keeps the invariant; there is one to go back to |
| `Wildcard.AtEnd` | blockchain-cpp/src/doctest/doctest.h:3575-3578 | at the end of the string only stars may be left |
| `UrlEscape.EscapeIsStable` | blockchain-cpp-crow/src/url-cpp/url.cpp:658-748 | in both modes, for every class without "%": unescape(escape(s)) = unescape(s) and escape(escape(s)) = escape(s) |
| `UrlEscape.EscapeKeepsMeaningIff` | blockchain-cpp-crow/src/url-cpp/url.cpp:683-748 | unescape(escape(s)) = unescape(s) for all strings if and only if "%" is not in the class, or it is and no hexadecimal digit is; in both modes |
| `UrlEscape.EscapeIsIdempotentIff` | blockchain-cpp-crow/src/url-cpp/url.cpp:665-709 | escape(escape(s)) = escape(s) for all strings if and only if "%" is not in the class, or every code made of two safe digits is left as it is (in capitals, for a byte that stays escaped) |
| `UrlEscape.EscapeIsCanonicalIff` | blockchain-cpp-crow/src/url-cpp/url.cpp:658-709 | in both modes, two strings escape alike exactly when they have the same `Meaning` (equal values, and in strict mode the codes of safe reserved bytes kept apart from the bytes), for all strings, if and only if no code that stays can also be written as a safe "%" and two safe digits |
| `UrlEscape.PlainEscapeIsCanonicalIff` | blockchain-cpp-crow/src/url-cpp/url.cpp:683-748 | outside strict mode: two strings escape alike exactly when they unescape alike, for all strings, if and only if the same condition holds |
| `UrlEscape.DigitsAfterPercent` | blockchain-cpp-crow/src/url-cpp/url.cpp:683-708 | with "%" and two digits safe: "%25" and the digits escape to a code that was not there, which breaks the laws |
| `UrlEscape.EscapeLength` | blockchain-cpp-crow/src/url-cpp/url.cpp:662-664 | escaping at most triples the length and unescaping never lengthens |
| `UrlEscape.Escape` | blockchain-cpp-crow/src/url-cpp/url.cpp:658-709 | the two-index loop computes `Escaped` within three bytes per input byte; what becomes of reserved bytes, `UrlDelimiters.StrictKeepsParts` says |
| `UrlEscape.PutByte` | blockchain-cpp-crow/src/url-cpp/url.cpp:697-708 | a byte as it is, or as a code in capitals |
| `UrlEscape.Unescape` | blockchain-cpp-crow/src/url-cpp/url.cpp:720-748 | the in-place loop leaves `Unescaped` of the old text in front; by its invariant the write position never passes the read position |
| `Url.LibraryClassesAreStable` | blockchain-cpp-crow/src/url-cpp/url.cpp:16-35 | the laws hold for the classes PATH, QUERY and USERINFO |
| `UrlDelimiters.StrictKeepsParts` | blockchain-cpp-crow/src/url-cpp/url.cpp:676-694 | for each of :/?#[]@!$&'()*+,;= that a class has and every string: strict escaping neither adds nor removes one, and what stands between two of them is escaped by itself |
| `UrlDelimiters.PathKeepsSegments` | blockchain-cpp-crow/src/url-cpp/url.cpp:649-656 | the segments of a strictly escaped path are the escapes of its segments, one by one |
| `UrlDelimiters.CodesThatStay` | blockchain-cpp-crow/src/url-cpp/url.cpp:676-694 | in what strict escaping writes, a code is of a byte outside the class or of a delimiter, and every other byte is in the class |
| `UrlDelimiters.ReservedAreDelimiters` | blockchain-cpp-crow/src/url-cpp/url.cpp:14-21 | the reserved bytes are :/?#[]@ and !$&'()*+,;= |
| `UrlDelimiters.ClassesOf` | blockchain-cpp-crow/src/url-cpp/url.cpp:14-35 | the bytes of PATH, QUERY and USERINFO, spelled out |
| `UrlDelimiters.HexTable` | blockchain-cpp-crow/src/url-cpp/url.cpp:700-701 | codes are written with 0 to 9 and A to F, and read in either case |
| `Url.Url.EscapeAll` | blockchain-cpp-crow/src/url-cpp/url.cpp:649-656 | each component is escaped with its own class |
| `Url.Url.UnescapeAll` | blockchain-cpp-crow/src/url-cpp/url.cpp:711-718 | each component is unescaped |
| `Url.Url.RemoveDots` | blockchain-cpp-crow/src/url-cpp/url.cpp:490-576 | the path field becomes its normal form |
| `AbsPath.Normalise` | blockchain-cpp-crow/src/url-cpp/url.cpp:490-576 | the buffer with offsets computes the stack of segments; every truncation is to a recorded offset; what the result is, `PathLaws.LawsDecide` says |
| `AbsPath.AddLastSegment` | blockchain-cpp-crow/src/url-cpp/url.cpp:539-572 | the last segment and the final slash, as `Normalised` has them |
| `AbsPath.NormalisedIsNormal` | blockchain-cpp-crow/src/url-cpp/url.cpp:490-576 | the result is not empty and has no empty, "." or ".." segment but for the root and a trailing slash |
| `AbsPath.FixedPointIffNormal` | blockchain-cpp-crow/src/url-cpp/url.cpp:490-576 | a path is unchanged if and only if it is normal; doing it twice changes no more |
| `PathLaws.LawsDecide` | blockchain-cpp-crow/src/url-cpp/url.cpp:490-576 | `abspath` is the only function that keeps normal paths, takes "" for "/", gives a final "." or ".." its slash, takes out empty segments and ".", takes out a segment with the ".." after it, and takes out "./", "../", "x/../" or "/../" in front of a relative path |
| `PathLaws.NormalisedHasTheLaws` | blockchain-cpp-crow/src/url-cpp/url.cpp:490-576 | it has all these laws, for all paths |
| `PathLaws.DotsTakeOut` | blockchain-cpp-crow/src/url-cpp/url.cpp:517-526 | a/x/../b is as a/b, for all a and b and every segment x that is not dotted |
| `PathLaws.EmptyIsTakenOut` | blockchain-cpp-crow/src/url-cpp/url.cpp:511-514 | a//b is as a/b |
| `PathLaws.DotIsTakenOut` | blockchain-cpp-crow/src/url-cpp/url.cpp:527-530 | a/./b is as a/b |
| `PathLaws.FinalDots` | blockchain-cpp-crow/src/url-cpp/url.cpp:545-560 | a final "." or ".." is as with a slash after it |
| `PathLaws.StartIsTakenOut` | blockchain-cpp-crow/src/url-cpp/url.cpp:517-526 | what vanishes at the start: "./", "../", "x/../", and "/../" with the root |
| `PathLaws.TheSegmentBeforeGoes` | blockchain-cpp-crow/src/url-cpp/url.cpp:517-526 | "/a/b/../c" becomes "/a/c" |
| `AbsPath.StartsAreSegmentStarts` | blockchain-cpp-crow/src/url-cpp/url.cpp:493-499 | recorded offsets lie inside the buffer, at its start or after a slash |
| `AbsPath.RootIsKeptIff` | blockchain-cpp-crow/src/url-cpp/url.cpp:517-526 | the root entry survives exactly while no ".." has climbed above it |
| `AbsPath.AbsoluteStaysAbsoluteIff` | blockchain-cpp-crow/src/url-cpp/url.cpp:490-576 | an absolute path stays absolute if and only if it never climbs above its root, or ends with a dotted segment at the highest point it has climbed to |
| `AbsPath.RelativeBecomesAbsoluteIff` | blockchain-cpp-crow/src/url-cpp/url.cpp:490-576 | a relative path becomes absolute ("a/.." becomes "/") if and only if its last segment is dotted and it ends no deeper than at any point before |
| `AbsPath.StackSize` | blockchain-cpp-crow/src/url-cpp/url.cpp:517-526 | the number of entries left, from the depths of the path's segments |
| `AbsPath.RootCanBeRemoved` | blockchain-cpp-crow/src/url-cpp/url.cpp:517-526 | "/../a" becomes "a" |
| `Blockchain.Blockchain.constructor` | blockchain-rust/src/blockchain.rs:32-41 | a new node holds the genesis block alone |
| `Blockchain.Blockchain.NewBlock` | blockchain-rust/src/blockchain.rs:125-144 | the pending transactions move into a block at the next index; nothing else changes |
| `Blockchain.Blockchain.NewTransaction` | blockchain-rust/src/blockchain.rs:152-159 | the transaction joins the pending ones; the index returned is the next block's |
| `Blockchain.Blockchain.PostTransaction` | blockchain-rust/src/main.rs:44-67 | a request that lacks a value is refused and changes nothing |
| `Blockchain.Blockchain.IsValidChain` | blockchain-rust/src/blockchain.rs:60-84 | returns true exactly when every block after the first has the hash of the one before it and a proof that `valid_proof` accepts for the two proofs and that hash |
| `Blockchain.Blockchain.ProofOfWork` | blockchain-rust/src/blockchain.rs:181-191 | the least valid proof, given that one exists |
| `Blockchain.Blockchain.Mine` | blockchain-rust/src/main.rs:20-42 | the reward joins the pending transactions and all go into a block with the least proof on top of the last one |
| `Blockchain.Blockchain.ResolveConflicts` | blockchain-rust/src/blockchain.rs:90-118 | adopts what `Adopted` says, reports true exactly when some valid response is longer, and whatever the responses changes the chain only for one of which every link and proof holds |
| `Blockchain.AdoptedIsProved` | blockchain-rust/src/blockchain.rs:96-116 | for all responses, honest or not: the chain stays, or becomes one that was answered with a longer length and of which every previous hash and every proof holds |
| `Blockchain.ValidChainIff` | blockchain-rust/src/blockchain.rs:71-77 | validity in terms of the hash and the proof test alone |
| `Blockchain.BestIsTheFirstLongest` | blockchain-rust/src/blockchain.rs:96-109 | what is adopted is the first of the longest valid responses and strictly longer than the own chain; nothing is adopted exactly when none is |
| `Blockchain.SharedBlockSharesHistory` | blockchain-rust/src/blockchain.rs:60-84 | if no two different blocks of two valid chains hash alike and none of them hashes to "1": when chains that start from previous hash "1" share a block, they share its height and all before it |
| `Network.Safety` | blockchain-rust/src/main.rs:20-78 | in every state of every run, every node's chain is valid, starts with a genesis block, numbers its blocks by position, ends each later block with a reward to a node, and has not got shorter |
| `Network.EveryBlockIsProved` | blockchain-rust/src/main.rs:20-78 | in every state of every run: the first block has index 1, proof 100 and previous hash "1"; each later one its place as index, the hash of the one before, a proof that `valid_proof` accepts, and as its last transaction 1 from "0" to a node |
| `Network.RunsContinue` | blockchain-rust/src/main.rs:20-124 | whatever a node can do in the last state of a run makes a longer run |
| `Network.StepChange` | blockchain-rust/src/main.rs:20-124 | a step leaves a chain alone, adds a mined block to it, or replaces it with a longer chain a peer has held |
| `Network.ChainsOnlyGrow` | blockchain-rust/src/blockchain.rs:104-116 | between two states a chain is the same or longer |
| `Network.SharedBlocksInRuns` | blockchain-rust/src/blockchain.rs:60-84 | under the same condition on the blocks ever held in the run, any two chains ever held that share a block agree up to it |
| `Conservation.ConservationIff` | blockchain-rust/src/main.rs:20-67 | a node's blocks and pending transactions are what it was given, in order, if and only if whenever it resolves, it hears of no valid chain longer than its own, or first of a longest one with its own transactions |
| `Conservation.ConservationIffNothingLonger` | blockchain-rust/src/main.rs:20-67 | while nobody submits a transaction from sender "0": if and only if it never resolves when a polled chain is valid and longer than its own |
| `Conservation.RewardsAreCounted` | blockchain-rust/src/main.rs:25 | every chain has exactly one reward for each block after the first, and none is pending, as long as none is forged |
| `NetworkExamples.AdoptionLosesReward` | blockchain-rust/src/blockchain.rs:111-114 | a run in which a node adopts a longer chain and its own reward is neither in its blocks nor pending; all blocks in it hash differently |
| `Conservation.LedgerStep` | blockchain-rust/src/main.rs:20-67 | one step adds to the ledger what it submits, unless it resolves |
| `Network.Convergence` | blockchain-rust/src/main.rs:105-124 | mining stopped and one longest chain: after d rounds of resolving, every node at most d neighbours from a holder has that chain for good |
| `Network.AgreementIffNoTie` | blockchain-rust/src/main.rs:105-124 | the rounds bring agreement if and only if no other chain is as long |
| `Network.LongestLengthSpreads` | blockchain-rust/src/main.rs:105-124 | ties or not: after d rounds every node at most d neighbours from a holder of a longest chain has some chain of that length |
| `NetworkExamples.TieIsNeverResolved` | blockchain-rust/src/blockchain.rs:104-107 | a run in which two nodes that know each other mine one block each, then both resolve, and keep two chains |
| `Network.ResolveReaches` | blockchain-rust/src/blockchain.rs:90-118 | a node that asks another and takes up what is better has a chain at least as long as that one's afterwards |
| `Network.LongestIsKept` | blockchain-rust/src/blockchain.rs:104-107 | a longest chain is never given up for another of its length |
| `Network.StaysDominant` | blockchain-rust/src/blockchain.rs:104-107 | without mining the longest chain stays the longest, whatever stale answers arrive |

## Left out

- Servers, sockets, files, JSON, logging, command lines and UUIDs: input and output, or libraries that are not part of this model. A clock reading is a parameter; a peer's answer is a chain it held in an earlier state.
- The other nodes (Python, Go, JavaScript, TypeScript, C#) and `blockchain.hpp`: the same protocol. Several mine without a lock, so the steps here would not be theirs.
- The rest of doctest, easylogging++ and httplib (reporters, regular expressions, multipart, TLS), and `Url`'s parsing, printing, query sorting and public-suffix rules: easier members that add little.
- PunycodeCodec.Decode: a byte above 127 after the last delimiter is looked up as the table's own -1 entry; the source indexes with a signed char, which has no defined meaning there. Strings are below 2^32 - 1 bytes, so that sizes fit the source's 32-bit arithmetic.
- PunycodeEncoder.Encode: the two overflow messages of the encoder are one error, and the argument is not overwritten but the result returned. Strings are below 2^32 - 1 bytes.
- Utf8.ReadCodepoint: masks and shifts are written as arithmetic on values of known range.
- Sha256Block.HashBlock: `word_t` is its modulus, any multiple of 2^32; bitwise operations are defined on natural numbers bit by bit.
- Sha256Hasher.HashSinglePass: the public wrappers, container overloads and hexadecimal output are not modelled.
- HappyHttp.FragmentationIndependence: lengths and chunk sizes that are negative or do not fit `int` end in a failure of the model (`LengthOutOfRange`); `m_BytesRead` is not bounded; of the callbacks, the model has how often the first and last are invoked and the data of the second, not what they do. After a failure the object's fields are not specified.
- HappyHttpResponse.Response.ParseStatusLine: an interim 100 response leaves its text in the version and reason, as in the source (`ResponseForms.InterimLeavesItsMark`).
- HttplibChunked.ReadContentChunked: the line buffer has any size from 2 on, where the source fixes 16. A stream is its bytes and how it ends; an error in the middle is a stream that ends there with an error.
- ChunkedCoding.WriteStreamed: the provider's answers are a sequence (then ""), so its offset argument is not modelled, and writing never fails.
- HttplibResponse.WriteResponse: the error handler, compression, write errors and negative statuses are not modelled; the headers are a sequence in the multimap's order.
- Arrival.ArrivesIff: for header names and values that stay on one line, without NUL, names without a colon or leading white space, values without leading blanks; other headers do not come back as they were.
- Wildcard.WildCmp: letters are folded as in the C locale.
- UrlEscape.Escape: a byte above 127 after "%" counts as no digit, where the source's table index is not defined; the string is copied to a buffer of three times its length instead of being resized.
- AbsPath.Normalise: returns the new path; `Url.RemoveDots` stores it. `find` gives the length where the source has `npos`.
- Blockchain.Blockchain.ProofOfWork: that a proof exists is a precondition; the hash and the proof test are abstract, and so is the block's JSON text. Indexes, proofs and amounts are not bounded to 32 or 64 bits, and a timestamp is its number of milliseconds.
- Blockchain.Blockchain.ResolveConflicts: a response with more claimed length than the own chain carries a block, where the source would panic; an unreachable peer, where it would panic too, is not modelled.
- Network.Safety: peers run this code and answer with their chain's own length, which the source trusts. Registering a peer adds its number; parsing its address is not modelled.
- Network.Convergence: that rounds in which every node resolves take place is an assumption on the run; liveness of the requests is not modelled.
