# Channel and source coders of TIC2024, modelled in Dafny

TIC2024 is a small communication pipeline. A client compresses a text message
with a Shannon–Fano prefix code. It protects the bits with a channel code: a
(15,11) or (31,26) Hamming code, or a linear code with a random parity block.
It then flips a share of the bits at random and packs them into bytes behind a
one-byte header. This project models those coders and client helpers and
proves what they promise.

The modules are:

- `Bits` (bits.dfy): bit lists as `seq<bool>`. Holds most- and
  least-significant-first values, `bin(n)[2:].zfill(w)`, Python slices with
  negative indices, Hamming weight, flips and dot products over GF(2).
- `Outcome` (outcome.dfy): the `Result` type and the errors the Python code
  raises. NumPy/Sage shape errors are `ShapeMismatch`. The empty-message and
  missing-table `ValueError`s, the uncorrectable-syndrome `ValueError`,
  `randint` on an empty range and `int('', 2)` each have their own error.
- `Shapes` (shapes.dfy): which matrix dimensions `np.hstack`, `np.vstack`,
  `augment` and matrix products accept.
- `Systematic` (systematic.dfy): the systematic code `m·[I | P]` and the
  syndrome `[P^T | I]·c` that every coder builds. It also holds the
  matrix-building methods over `array2`, syndrome algebra, and the Hamming
  facts. With the Hamming block, the syndrome of a flipped data bit j is j+1.
  A flipped parity bit t gives 2^t.
- `HammingNumPy` (hamming_numpy.dfy): `Codes/HammingCodeNumPy.py`. It uses
  8-bit chunks behind a 3-bit padding count. Correction repeats until the
  syndrome is zero, changing the decoder's own copy of the received list in
  place; the caller's list is left alone.
- `Hamming3126` (hamming_3126.dfy): `Codes/HammingCodeNumPu3126.py`. It uses
  21-bit chunks behind a 5-bit padding count. The decoder makes one
  correction attempt per chunk and prints 'Error' on inconsistent chunks.
- `HammingSage` (hamming_sage.dfy): `Codes/HammingCode.py`. It uses 7-bit
  chunks behind a 4-bit length. The decoder makes one correction attempt,
  counts syndrome bits, and truncates the result.
- `Linear` (linear.dfy): `Codes/linear.py`. The header is 32 bits and the
  data is padded to whole bytes. There are ⌈log2 k⌉ random parity columns.
  The decoder flips one bit itself before decoding.
- `Client` (client.dfy): `create_noise` and `bits_to_bytes_with_header` from
  `client.py`.
- `ShannonFano` (shannon_fano.dfy): `Codes/fano_shannon.py` and its
  near-copy `Codes/fannon-shannon.py`. It covers frequency counting, the
  stable descending sort, the split, the recursive code table, compression,
  and greedy decompression.

Randomness is always a parameter. The random parity block and padding bits of
the linear code are parameters, as are the bit `LinearCodeDecode` flips and
the positions `create_noise` draws. Python ordered dicts are sequences of
pairs, so iteration order and "the later key wins" in the reverse code table
are kept.

## Model

| member | source | states |
|---|---|---|
| Systematic.EncodeBlockLayout | Codes/HammingCodeNumPy.py:30 | a codeword of G = [I \| P] is the message followed by r parity bits |
| Systematic.CreateGeneratorMatrix | Codes/HammingCodeNumPy.py:14-31 | builds the k×(k+r) array [I_k \| P] from the parity block; the same construction as Codes/HammingCodeNumPu3126.py:13-30 and Codes/linear.py:42-46 |
| Systematic.CreateHMatrix | Codes/HammingCodeNumPy.py:63-77 | builds the r×(k+r) array [P^T \| I_r] |
| Systematic.VecTimesGenerator | Codes/HammingCodeNumPy.py:48 | `np.dot(v, G) % 2` over the built array equals the systematic codeword of v |
| Systematic.TimesVecCheck | Codes/HammingCodeNumPy.py:79-87 | `np.dot(H, c) % 2` over the built array equals the syndrome of c |
| Systematic.CodewordSyndrome | Codes/HammingCodeNumPy.py:63-77 | every codeword has the zero syndrome |
| Systematic.ZeroSyndromeIffCodeword | Codes/HammingCodeNumPy.py:116 | the syndrome is zero exactly when the word is the codeword of its own first k bits |
| Systematic.FlipSyndrome | Codes/HammingCodeNumPy.py:114-119 | flipping bit j adds column j of H to the syndrome |
| Systematic.HammingDataColumn | Codes/HammingCodeNumPy.py:71-73 | column j < k of the Hamming H is j+1 in binary, least significant bit first |
| Systematic.ParityColumn | Codes/HammingCodeNumPy.py:75-76 | column k+t of H is the unit vector t |
| Systematic.HammingDataError | Codes/HammingCodeNumPy.py:97-100 | a codeword with data bit j flipped has syndrome value j+1, so `correct_errors` flips exactly that bit back |
| Systematic.HammingParityError | Codes/HammingCodeNumPy.py:97-100 | a codeword with parity bit t flipped has syndrome value 2^t, so the correction flips data bit 2^t − 1 instead |
| Systematic.HammingWeightTwoCodeword | Codes/HammingCodeNumPy.py:71-76 | columns 2^t − 1 and k+t of H are equal, so flipping both bits leaves the syndrome zero |
| Systematic.CorrectErrors | Codes/HammingCodeNumPy.py:90-101 | the syndrome read least significant bit first gives a 1-based index; an index in 1..limit flips that bit of the chunk in place and nothing else changes |
| Systematic.HammingStepToZero | Codes/HammingCodeNumPy.py:114-124 | after one correction at a data position the syndrome is zero |
| Systematic.HammingStepOnParity | Codes/HammingCodeNumPy.py:114-124 | a correction at a position past the data leaves the syndrome with one bit flipped |
| HammingNumPy.EncodeChunkSystematic | Codes/HammingCodeNumPy.py:39-48 | a block starts with the 3-bit padding count, most significant first, then the chunk, then the padding zeros, and its header reads back as the padding count |
| HammingNumPy.PaddedMessage | Codes/HammingCodeNumPy.py:41-46 | the padded chunk and zfilled header the loop builds are the block's 11 data bits |
| HammingNumPy.ChunkProduct | Codes/HammingCodeNumPy.py:46-48 | the product with the built generator matrix is the encoded block |
| HammingNumPy.EncodingLength | Codes/HammingCodeNumPy.py:39-50 | the encoding has 15 bits per started 8-bit chunk |
| HammingNumPy.EncodeMessage | Codes/HammingCodeNumPy.py:33-50 | the encoder loop returns the concatenation of the encoded chunks |
| HammingNumPy.CorrectionStep | Codes/HammingCodeNumPy.py:114-119 | a non-zero syndrome always names a bit in 1..15, and flipping it strictly lowers a rank, so the `while True` loop ends |
| HammingNumPy.CorrectionLoopStops | Codes/HammingCodeNumPy.py:114-124 | the loop ends with a zero syndrome after at most 4 corrections, and counts none iff the chunk was clean |
| HammingNumPy.CorrectInPlace | Codes/HammingCodeNumPy.py:111-124 | the correction loop runs on the chunk as a view, changing those 15 bits of the decoder's own copy and no others, and returns the number of corrections |
| HammingNumPy.DecodeChunkInPlace | Codes/HammingCodeNumPy.py:111-129 | corrects one chunk in place and returns its data bits and counters |
| HammingNumPy.DecodeMessage | Codes/HammingCodeNumPy.py:103-131 | returns the decoded bits and counters of all chunks, or a shape error for a short last chunk; on success the decoder's own copy holds the corrected word |
| HammingNumPy.ChunkYield | Codes/HammingCodeNumPy.py:126-128 | a chunk yields 8 − (header value) bits |
| HammingNumPy.DecodeEncodedChunk | Codes/HammingCodeNumPy.py:111-128 | an encoded chunk decodes to itself with no errors counted |
| HammingNumPy.RoundTrip | Codes/HammingCodeNumPy.py:103-131 | decoding the encoding gives back the message with zero counters and leaves the array unchanged |
| HammingNumPy.ChunkSingleDataError | Codes/HammingCodeNumPy.py:114-128 | one flipped data bit is corrected in one step and counted as found and corrected |
| HammingNumPy.SingleDataErrorCorrected | Codes/HammingCodeNumPy.py:111-129 | one flipped data bit anywhere in the encoded message is corrected, with counters 1 and 1 |
| HammingNumPy.ParityErrorMiscorrected | Codes/HammingCodeNumPy.py:97-100 | a flipped parity bit t makes the loop flip data bit 2^t − 1 as well |
| HammingNumPy.DecodingShape | Codes/HammingCodeNumPy.py:111-116 | decoding succeeds iff the length is a multiple of 15 |
| HammingNumPy.CountersBounded | Codes/HammingCodeNumPy.py:109-122 | corrected ≤ found ≤ 4 per chunk, and corrected ≤ the number of chunks |
| Hamming3126.EncodeChunkSystematic | Codes/HammingCodeNumPu3126.py:38-47 | a block is the 5-bit padding count, the chunk, the padding zeros and 5 parity bits |
| Hamming3126.PaddedMessage | Codes/HammingCodeNumPu3126.py:40-45 | the header and padded chunk the loop builds are the block's 26 data bits |
| Hamming3126.ChunkProduct | Codes/HammingCodeNumPu3126.py:45-47 | the product with the built generator matrix is the encoded block |
| Hamming3126.EncodingLength | Codes/HammingCodeNumPu3126.py:38-49 | 31 bits per started 21-bit chunk |
| Hamming3126.EncodeMessage | Codes/HammingCodeNumPu3126.py:32-49 | the encoder loop returns the concatenated blocks |
| Hamming3126.FixedFlips | Codes/HammingCodeNumPu3126.py:96-99 | the attempt flips the bit the syndrome names (none for a zero syndrome) |
| Hamming3126.DecodeChunkInPlace | Codes/HammingCodeNumPu3126.py:111-123 | the attempt changes the chunk's bits of the decoder's own copy in place and nothing else |
| Hamming3126.DecodeMessage | Codes/HammingCodeNumPu3126.py:102-127 | returns the decoded bits and the three counters of all chunks, or a shape error for a short last chunk |
| Hamming3126.ParityAttemptFails | Codes/HammingCodeNumPu3126.py:112-118 | an attempt at a position past the data leaves a non-zero syndrome |
| Hamming3126.CorrectedIffSyndromeInData | Codes/HammingCodeNumPu3126.py:112-118 | a chunk counts as found iff its syndrome is non-zero and as corrected iff the syndrome names a data position |
| Hamming3126.ReportIffPaddingTooLarge | Codes/HammingCodeNumPu3126.py:121-125 | 'Error' is printed iff the header exceeds 21, and the chunk yields 21 − p, 0 or 52 − p bits, following the negative slice end |
| Hamming3126.DecodeEncodedChunk | Codes/HammingCodeNumPu3126.py:111-123 | an encoded chunk decodes to its chunk with no counts |
| Hamming3126.RoundTrip | Codes/HammingCodeNumPu3126.py:102-127 | decoding the encoding gives back the message with zero counters |
| Hamming3126.ChunkSingleDataError | Codes/HammingCodeNumPu3126.py:112-123 | one flipped data bit is found and corrected |
| Hamming3126.SingleDataErrorCorrected | Codes/HammingCodeNumPu3126.py:110-126 | one flipped data bit anywhere is corrected, with counters 1, 1, 0 |
| Hamming3126.ParityErrorMiscorrected | Codes/HammingCodeNumPu3126.py:96-99 | a flipped parity bit makes the attempt flip data bit 2^t − 1, still counted as corrected |
| Hamming3126.DecodingShape | Codes/HammingCodeNumPu3126.py:110-112 | decoding succeeds iff the length is a multiple of 31 |
| Hamming3126.CountersBounded | Codes/HammingCodeNumPu3126.py:108-125 | corrected ≤ found ≤ chunks and reports ≤ chunks |
| Hamming3126.DecoderFailsAsWritten | Codes/HammingCodeNumPu3126.py:74-76 | stacking the 26×5 parity block beside the 5×5 identity is a shape error, so every decoder construction fails |
| Hamming3126.IntendedCheckMatrixShape | Codes/HammingCodeNumPu3126.py:62-86 | stacked vertically, the blocks give a 31×5 matrix whose transpose multiplies a 31-bit chunk into a 5-bit syndrome |
| HammingSage.Header | Codes/HammingCode.py:44 | the zfilled 4-bit header is the chunk length, most significant first |
| HammingSage.EncodeChunkSystematic | Codes/HammingCode.py:39-47 | a block is the 4-bit chunk length, the chunk, padding zeros and 4 parity bits |
| HammingSage.PaddedMessage | Codes/HammingCode.py:41-45 | the header and padded chunk the loop builds are the block's 11 data bits |
| HammingSage.ChunkProduct | Codes/HammingCode.py:45-47 | the product with the built generator matrix is the encoded block |
| HammingSage.EncodingLength | Codes/HammingCode.py:39-49 | 15 bits per started 7-bit chunk |
| HammingSage.EncodeMessage | Codes/HammingCode.py:33-49 | the encoder loop returns the concatenated blocks |
| HammingSage.DecodeMessage | Codes/HammingCode.py:99-117 | the decoder loop returns the decoded bits and error count, truncated as written |
| HammingSage.ChunkYield | Codes/HammingCode.py:111-113 | a chunk yields min(header value, 11) bits |
| HammingSage.DecodeEncodedChunk | Codes/HammingCode.py:107-113 | an encoded chunk decodes to its chunk with count 0 |
| HammingSage.RoundTrip | Codes/HammingCode.py:99-114 | without the final truncation, decoding the encoding gives the message back with count 0 |
| HammingSage.AsWrittenKeepsPrefix | Codes/HammingCode.py:116 | as written, decoding the encoding gives only the first `len(encoded) // 20 * 12` bits of the message |
| HammingSage.ShortMessageLost | Codes/HammingCode.py:116 | a message of 1 to 7 bits decodes to the empty list as written, and to itself without the truncation |
| HammingSage.OneBitMessageLost | Codes/HammingCode.py:116 | the one-bit message [1] decodes to [] |
| HammingSage.ChunkSingleDataError | Codes/HammingCode.py:106-113 | one flipped data bit j is corrected and adds the weight of j+1's syndrome to the count |
| HammingSage.FlipSevenCountsThree | Codes/HammingCode.py:109 | a flip at data position 6 adds 3 to the error count |
| HammingSage.SingleDataErrorCorrected | Codes/HammingCode.py:106-114 | one flipped data bit anywhere is corrected |
| HammingSage.ParityErrorMiscorrected | Codes/HammingCode.py:94-96 | a flipped parity bit makes the attempt flip data bit 2^t − 1, leaving a zero syndrome |
| HammingSage.DecodingShape | Codes/HammingCode.py:106-108 | decoding succeeds iff the length is a multiple of 15 |
| HammingSage.ErrorCountBounded | Codes/HammingCode.py:105-109 | the error count is at most 4 per chunk |
| HammingSage.ShapesFailAsWritten | Codes/HammingCode.py:22-30 | as written, the 11×11 identity cannot be augmented by the 15×4 transposed parity matrix, and the 4×19 H cannot multiply a 15-bit column (lines 68-83) |
| HammingSage.IntendedShapes | Codes/HammingCode.py:62-84 | with a 4×11 parity block, G is 11×15 and H·c is a 4-bit syndrome |
| Linear.CeilLog2 | Codes/linear.py:37 | `ceil(log2(k))` is the least r with k ≤ 2^r |
| Linear.Padding | Codes/linear.py:35 | the padding is below 8 and makes header plus message a whole number of bytes |
| Linear.NewEncoder | Codes/linear.py:26-62 | a built encoder's codeword has n > k ≥ 32 + message length bits |
| Linear.Parameters | Codes/linear.py:32-37 | k is a multiple of 8, at least 40 and below message + 40; there are ⌈log2 k⌉ ≥ 6 parity bits with 2^(n−k) ≥ k |
| Linear.ByteRounding | Codes/linear.py:34-36 | the rounded k is a multiple of 8 between message + 32 and message + 39 |
| Linear.ParityBitCount | Codes/linear.py:37 | k ≥ 40 gives at least 6 parity bits |
| Linear.EncoderErrors | Codes/linear.py:29-33 | the empty message raises; otherwise the encoder succeeds iff the length fits the 32-bit header, and a longer one is a shape error |
| Linear.EncodeSystematic | Codes/linear.py:54-62 | the codeword is the header, the message and the fill bits, followed by their parity bits |
| Linear.CorrectErrorsSpec | Codes/linear.py:102-121 | the syndrome read most significant bit first is a 1-based position; 0 keeps the word; a position past the end raises; an empty syndrome is a bad literal; otherwise exactly that bit flips |
| Linear.ExtractLayout | Codes/linear.py:126-131 | the message is the bits after the 32-bit header, as many as the header says, cut at the end of the word |
| Linear.NewDecoder | Codes/linear.py:66-74 | words shorter than 34 bits raise on the empty random range; otherwise bit x is flipped in place and the decoder fields are computed from the flipped word |
| Linear.ExtractMessage | Codes/linear.py:126-131 | a word that carries a message yields it |
| Linear.FlipCarried | Codes/linear.py:68-69 | a flip past the header keeps the message or flips the same bit of it |
| Linear.HeaderAfterFlip | Codes/linear.py:137-139 | a header of n with bit pos flipped announces n ± 2^(31 − pos) bits, never n |
| Linear.TwoFlips | Codes/linear.py:133-142 | after the decoder's flip at x, a correction at pos behind the message yields the message, one inside it yields the message with bit pos − 32 flipped, and one inside the header yields a cut of min(HeaderAfterFlip, \|word\| − 32) bits, never as long as the message |
| Linear.PrefixCarries | Codes/linear.py:33-57 | a word starting with header, message and fill carries the message |
| Linear.EncodedCodeword | Codes/linear.py:42-62 | the encoded word has the zero syndrome for H = [P^T \| I] |
| Linear.EncoderValid | Codes/linear.py:26-62 | every built encoder is sized, carries its message and is a codeword |
| Linear.DecodeCleanWord | Codes/linear.py:123-132 | a zero syndrome yields the carried message |
| Linear.DecodeFlips | Codes/linear.py:133-142 | a non-zero syndrome naming a position in the word yields the message of the word with that bit flipped |
| Linear.ErrorCount | Codes/linear.py:96-99 | the error count is at most r, and 0 iff the word is a codeword |
| Linear.RoundTrip | Codes/linear.py:123-132 | an unflipped encoded word decodes to its message with count 0 |
| Linear.NoiseSyndrome | Codes/linear.py:87-94 | flipping bit x of a codeword gives column x of H as the syndrome |
| Linear.UnitPosition | Codes/linear.py:104-107 | a unit syndrome read most significant bit first names a data position below k |
| Linear.MiscorrectedBit | Codes/linear.py:104-119 | the position a flipped parity bit makes the decoder flip lies in the first k bits (header, message or fill) |
| Linear.DecodeNonzeroSyndrome | Codes/linear.py:133-142 | a non-zero syndrome s yields count = weight(s) and the message of the word with bit s − 1 flipped |
| Linear.ParityNoiseDecoded | Codes/linear.py:66-74 | the decoder's own flip at a parity position x gives a unit syndrome, count 1, and a second flip in the first k bits |
| Linear.ParityNoiseMessage | Codes/linear.py:133-142 | that second flip leaves the message intact on fill, flips one of its bits on the message, and on the header yields a cut of another length, never the message |
| Linear.ParityNoiseMiscorrected | Codes/linear.py:66-74 | for a built encoder's word, the decoder's flip at a parity position yields the message (flip on fill), the message with one bit flipped (flip on the message), or something other than the message (flip on the header) |
| Linear.HeaderHit | Codes/linear.py:104-119 | the second flip lands in the 32-bit header exactly for the last six parity positions, t ≥ ⌈log2 k⌉ − 6 |
| Linear.ShortMessageParityNoise | Codes/linear.py:66-74 | for a message of at most 32 bits (k ≤ 64), noise on any parity bit makes the decoder flip a header bit, and the message does not come back |
| Client.LastByteBits | client.py:26-29 | the header byte lies in 1..8 and agrees with the bit count modulo 8 |
| Client.BitsToBytesWithHeader | client.py:24-45 | the loop returns the header byte followed by one byte per 8-bit group |
| Client.GroupsLength | client.py:36-43 | one byte per started group of 8 bits |
| Client.PackedShape | client.py:24-45 | one header byte plus ⌈bits/8⌉ bytes, the header in 1..8; no bits give the single byte 8 |
| Client.PackedBytes | client.py:36-43 | a full group is its byte, first bit most significant; a short last group is right-aligned, below 2^(bits mod 8) |
| Client.GroupsInjective | client.py:36-43 | equal-length bit lists with equal bytes are equal |
| Client.BitCount | client.py:26-29 | the header and the byte count give the number of bits back |
| Client.PackedInjective | client.py:24-45 | distinct bit lists pack into distinct byte arrays |
| Client.NoiseCount | client.py:12-14 | the number of draws is the floor of length × share, the share being 0.01 when the percentage is outside [0, 1], and is at most the length |
| Client.NoiseCountOutOfRange | client.py:12-13 | a percentage outside [0, 1] acts as 0.01 |
| Client.ChosenSize | client.py:15-21 | there are no more distinct positions than draws |
| Client.CreateNoise | client.py:11-21 | a bit changes iff its position was drawn; the count is the number of distinct positions, at most the number of draws |
| ShannonFano.OccurrencesSpec | Codes/fano_shannon.py:17-23 | the dict's keys are exactly the message's symbols, each once |
| ShannonFano.OccurrencesOrder | Codes/fano_shannon.py:17-23 | the dict's keys come in order of first occurrence: an earlier key first occurs in the message strictly before a later one |
| ShannonFano.TallySpec | Codes/fano_shannon.py:17-23 | the counting loop gives every symbol of the message with its count, all positive and distinct |
| ShannonFano.SortDescSpec | Codes/fano_shannon.py:26 | the sort by falling count is ordered, a permutation, stable (equal counts keep their order) and keeps keys distinct |
| ShannonFano.FrequenciesSpec | Codes/fano_shannon.py:16-27 | the frequency dict has distinct keys, exactly the message's symbols, each with its count, in stable falling order; also Codes/fannon-shannon.py:28-38 |
| ShannonFano.CalculateFrequencies | Codes/fano_shannon.py:16-27 | the counting loop and sort return the frequency dict |
| ShannonFano.SplitFrequency | Codes/fano_shannon.py:46-58 | the loop puts each item into high iff it fits in half the total or is first, otherwise into low; also Codes/fannon-shannon.py:75-86 |
| ShannonFano.SplitPerm | Codes/fano_shannon.py:51-57 | the two groups together are a permutation of the items |
| ShannonFano.SplitSum | Codes/fano_shannon.py:47-57 | the group sums add up to the total |
| ShannonFano.SplitFirst | Codes/fano_shannon.py:53 | the first item always goes high, and high's sum is at most half the total unless it is that item alone |
| ShannonFano.SplitDistinct | Codes/fano_shannon.py:48-57 | the groups have distinct keys, share none and cover the items' keys |
| ShannonFano.SplitShrinks | Codes/fano_shannon.py:35-43 | for two or more items with positive counts, both groups are non-empty and smaller, so the recursion ends |
| ShannonFano.Codes | Codes/fano_shannon.py:29-43 | the recursive table has a code for every symbol and no other |
| ShannonFano.CodesPrefixFree | Codes/fano_shannon.py:34-43 | no code is a prefix of another, and with two or more symbols every code is non-empty |
| ShannonFano.CodesSingle | Codes/fano_shannon.py:35-36 | a single symbol keeps the empty code |
| ShannonFano.CodesNonEmpty | Codes/fano_shannon.py:35-43 | all codes are non-empty iff there are at least two symbols |
| ShannonFano.AppendToCodes | Codes/fano_shannon.py:38-41 | the bit is appended to the code of each symbol of the group and to no other |
| ShannonFano.BuildCodeTableRec | Codes/fano_shannon.py:34-43 | the recursion appends to each symbol's code exactly its Shannon–Fano code and leaves other entries alone; also Codes/fannon-shannon.py:51-66 |
| ShannonFano.BuildCodeTable | Codes/fano_shannon.py:29-32 | starting from empty codes, the table holds the symbols in frequency order with their codes |
| ShannonFano.TableOf | Codes/fano_shannon.py:7-9 | the table built in encode mode is well formed and covers exactly the message's symbols |
| ShannonFano.EncodedOk | Codes/fano_shannon.py:62 | compression succeeds iff every symbol of the message has a code, and otherwise fails with an unknown symbol (a KeyError) |
| ShannonFano.JoinExplode | Codes/fano_shannon.py:11 | joining the list `compress` returns gives the compressed string back |
| ShannonFano.ReverseSpec | Codes/fano_shannon.py:66 | with distinct codes, the reverse table maps each code back to its symbol, and every entry comes from the table |
| ShannonFano.TrailingDropped | Codes/fano_shannon.py:69-73 | trailing bits that never complete a code are dropped |
| ShannonFano.GreedyCode | Codes/fano_shannon.py:69-73 | the buffer emits a code's symbol once the code is complete, when no shorter prefix of it is a code |
| ShannonFano.DecodeEncoded | Codes/fano_shannon.py:65-74 | for a decodable table, decompressing compressed text followed by other bits gives the text, then those bits' decoding |
| ShannonFano.TableDecodable | Codes/fano_shannon.py:66 | a well-formed prefix-free table with non-empty codes is decodable through its reverse table |
| ShannonFano.MessageTable | Codes/fano_shannon.py:29-43 | with two or more distinct symbols, the table is prefix-free with non-empty codes and codes the whole message |
| ShannonFano.RoundTrip | Codes/fano_shannon.py:61-74 | with two or more distinct symbols, decompress(compress(m)) = m, even followed by other bits |
| ShannonFano.OneSymbolLost | Codes/fano_shannon.py:35-36 | a message of one repeated symbol compresses to the empty string and decompresses to the empty string |
| ShannonFano.IntendedTableOf | Codes/fano_shannon.py:29-43 | the table with code "0" for a lone symbol is well formed over the same symbols and equals the built table otherwise |
| ShannonFano.IntendedRoundTrip | Codes/fano_shannon.py:61-74 | with that table every non-empty message survives compression and decompression |
| ShannonFano.LoneSymbolTable | Codes/fano_shannon.py:35-36 | the intended table of a one-symbol message holds that symbol alone, with code "0", and the message consists of that symbol |
| ShannonFano.OneCodeTable | Codes/fano_shannon.py:61-66 | such a one-code table is well formed, prefix-free with a non-empty code, and codes the message |
| ShannonFano.NewCompressor | Codes/fano_shannon.py:2-13 | encode mode computes frequencies and table; decode mode refuses an empty table; any other mode keeps the given table; also Codes/fannon-shannon.py:2-19 |
| ShannonFano.Compress | Codes/fano_shannon.py:60-63 | the list of one-character strings joins to the compressed string of Codes/fannon-shannon.py:88-95, and fails exactly when it does |
| ShannonFano.Decompress | Codes/fano_shannon.py:65-74 | the bit loop returns the greedy decoding through the reverse table; also Codes/fannon-shannon.py:97-111 |

## Left out

- Client.NoiseCount: the product `len(mes) * percentage` is exact real arithmetic, not a double, so a float rounding just below a whole number is not modelled.
- ShannonFano.SplitFrequency: frequencies are whole counts and the test is `2 * (running + count) <= total`. The source divides the counts by the message length and compares float sums with `total / 2`. Float rounding in those sums could decide a borderline split differently.
- ShannonFano.Frequencies: the source divides each count by the length after counting. Only the counts are kept, which give the same order and splits up to float rounding.
- The frequency tables require positive counts. A zero count never arises from a message. A single zero count is harmless in the source (with `a:1, b:0` the split sends `a` high and `b` low), but a group holding two or more zero counts, such as `{b:0, c:0}`, puts them all in the high group, so the call recurses on the same items until Python raises `RecursionError`. That path is not modelled.
- Decode mode's `''.join(map(str, message))` is modelled for a message that is already a string or a list of one-character strings (`ShannonFano.JoinExplode`). Lists of other values, such as integers, are not modelled.
- `random.randint`, `matrix.random` and `rnd.randint` are parameters: the drawn positions, the parity block, the fill bits and the decoder's flip position.
- The interactive part of client.py cannot run as written: line 7 imports `LinearCode` and line 66 calls `LinearCode(compressor.compress, n=n)`, but Codes/linear.py defines only `LinearCodeEncode(message_)` (line 25) and `LinearCodeDecode` (line 65), and neither takes `n`. Only `create_noise` and `bits_to_bytes_with_header` are modelled from client.py.
- `calculate_entropy`, the interactive part of client.py (input, base64, the HTTP request) and the demo code at the end of Codes/linear.py and Codes/fannon-shannon.py perform I/O or floating-point logarithms and are left out. app.py and the server side are not part of this model.
- `print` calls are left out. In Codes/HammingCodeNumPu3126.py the 'Error' print is counted as a report.
- In Codes/linear.py the matrices are not built as arrays. `create_parity_matrix` (the columns of G after the k-th) gives back the parity block p, so the model passes p itself to the decoder. `create_generator_matrix` and `create_h_matrix` are the systematic G = [I | P] and H = [P^T | I] of `Systematic`, whose array-building methods `Systematic.CreateGeneratorMatrix` and `Systematic.CreateHMatrix` cover every parity block.
- NumPy/Sage matrices are modelled as `array2<bool>` built by methods, and products as functions over GF(2). Integer dtypes and vector/matrix types are not distinguished.
- Linear.ParityNoiseDecoded: stated for a codeword of any parity block whose r equals ⌈log2 k⌉. The random parity block's own columns are not constrained beyond that.
- The non-Hamming linear code has no guarantee that a data-bit flip is corrected (the random H columns need not equal the position), so no such lemma is claimed.

## Findings

| source | as written | input that shows it | evidently intended | confidence | as-written member | corrected member |
|---|---|---|---|---|---|---|
| Codes/HammingCode.py:116 | cuts the decoded bits to `len(encoded) // 20 * 12` | the one-bit message [1]: 15 encoded bits, 15 // 20 * 12 = 0, decoded [] | keep the bits the chunk headers announce; they already drop the padding | high, not executed | HammingSage.OneBitMessageLost | HammingSage.RoundTrip |
| Codes/HammingCodeNumPu3126.py:75 | `np.hstack` of the 26×5 parity block and the 5×5 identity | constructing any decoder: the row counts 26 and 5 differ | stack them vertically (31×5) so that `H_matrix.T` times a 31-bit chunk is the 5-bit syndrome | high, not executed | Hamming3126.DecoderFailsAsWritten | Hamming3126.SingleDataErrorCorrected |
| Codes/HammingCode.py:24 | the parity matrix is declared 4×15, also at line 68 | constructing any encoder: the 11×11 identity cannot be augmented by the 15×4 transpose; any decoder: the 4×19 H cannot multiply a 15-bit column | a 4×11 parity block, giving an 11×15 G and a 4×15 H | high, not executed | HammingSage.ShapesFailAsWritten | HammingSage.IntendedShapes |
| Codes/fano_shannon.py:35-36 | a message with one distinct symbol keeps the empty code | "aaa" compresses to "" and decompresses to "" | give a lone symbol a one-bit code, so decompress(compress(m)) = m | medium, not executed | ShannonFano.OneSymbolLost | ShannonFano.IntendedRoundTrip |
