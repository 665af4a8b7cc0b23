# spacelab-decoder, the decoding core in Dafny

This project models the decoding core of spacelab-decoder, a ground-station
decoder for the SpaceLab satellites. The model covers:

- **Bits to bytes.** A bit stream is scanned for a sync word (`BitDecoder`,
  built from `BitBuffer`, `SyncWord` and `ByteBuffer`). After a match, each
  group of eight bits becomes a byte.
- **AX100 mode 5 frames** (`Ax100`):
  - a 3-byte Golay(24,12) length field (`Golay24`);
  - a CCSDS-scrambled Reed-Solomon (255,223) block (`ReedSolomon`, over
    the tables of `GF256`).
- **CSP headers and link configuration.** Four-byte CSP headers (`Csp`) and
  the communication link record (`Link`).

Every operation is a pure function on immutable values. Python's mutable
objects become datatypes, and each method returns the new state. Exceptions
become `Result` errors. Python's unbounded integers are `int`/`nat`. List
elements that the source keeps in `numpy.uint8` arrays are `byte` (0..255).

The modules follow the source files:

| module | file |
|---|---|
| `Bits` (`bits.dfy`) | bitwise xor, and, or on naturals, popcount, powers of two |
| `BitStrings` (`bit_strings.dfy`) | bit lists: reversal, big- and little-endian value, last n |
| `Text` (`text.dfy`) | `str.lower()` on ASCII |
| `BitBuffer`, `ByteBuffer`, `SyncWord`, `BitDecoder` | the files of the same names |
| `Golay24` (`golay24.py`), `GF256` and `ReedSolomon` (`reed_solomon.py`) | the codes |
| `Ax100`, `Csp`, `Link` | the protocol files |

Three places where the code does not do what it evidently means to do are
listed under Findings. For each one the model has the code as written, a
lemma that shows the difference, and a corrected definition with the
intended property proved about it.

## Model

| member | source | states |
|---|---|---|
| BitBuffer.ParseEndianness | spacelab_decoder/bit_buffer.py:39-45 | the endianness is "msb" or "lsb" exactly when the lower-cased name is that word, and unknown otherwise |
| BitBuffer.SetMaxSize | spacelab_decoder/bit_buffer.py:33-37 | only the maximum changes; the contents are not trimmed |
| BitBuffer.SetEndianness | spacelab_decoder/bit_buffer.py:39-45 | an unknown name raises and changes nothing; otherwise only the endianness changes |
| BitBuffer.Create | spacelab_decoder/bit_buffer.py:29-31 | an empty buffer with the given maximum, storing the endianness the name parses to; raises exactly when the name is neither "msb" nor "lsb" |
| BitBuffer.CreateDefault | spacelab_decoder/bit_buffer.py:24-31 | the default construction is an empty "msb" buffer of size 8 |
| BitBuffer.Push | spacelab_decoder/bit_buffer.py:50-63 | raises exactly when a full buffer is empty (size 0), the pop on an empty list; keeps size and order |
| BitBuffer.PushInt | spacelab_decoder/bit_buffer.py:51-61 | an int bit is pushed as `bool(x)`, that is x != 0 |
| BitBuffer.PushBound | spacelab_decoder/bit_buffer.py:50-63 | within the maximum, a push succeeds and the length grows by one up to the maximum, then stays there |
| BitBuffer.ShrunkBufferGrows | spacelab_decoder/bit_buffer.py:33-59 | after the maximum is set below the current length, every push grows the list (the `==` test never fires again) |
| BitBuffer.PushAllKeepsLastMsb | spacelab_decoder/bit_buffer.py:52-56 | an "msb" buffer of size n holds the last n bits pushed, oldest first |
| BitBuffer.PushAllKeepsLastLsb | spacelab_decoder/bit_buffer.py:57-61 | an "lsb" buffer of size n holds the last n bits pushed, newest first |
| BitBuffer.ToInt | spacelab_decoder/bit_buffer.py:65-72 | `to_int` is the big-endian value of the list, below 2^len |
| ByteBuffer.Clear | spacelab_decoder/byte_buffer.py:49-51 | eight false slots, next slot 7, endianness kept |
| ByteBuffer.Create | spacelab_decoder/byte_buffer.py:29-31 | eight false slots, next slot 7, the given endianness: a well-formed buffer that is not full |
| ByteBuffer.Push | spacelab_decoder/byte_buffer.py:39-47 | a full buffer ignores the bit; otherwise the bit lands in slot pos, pos moves down (from 0 to the full mark 8), other slots keep their values |
| ByteBuffer.ToByte | spacelab_decoder/byte_buffer.py:53-60 | in "lsb" mode the slots are reversed in place, otherwise kept; the byte is the big-endian value of the slots after that, below 256 |
| ByteBuffer.PushAllLayout | spacelab_decoder/byte_buffer.py:33-51 | after k <= 8 pushes following a clear, bit j sits in slot 7 - j, lower slots are false, and the buffer is full exactly when k == 8 |
| ByteBuffer.PushAllWhenFull | spacelab_decoder/byte_buffer.py:39-45 | pushing into a full buffer changes nothing |
| ByteBuffer.EightPushes | spacelab_decoder/byte_buffer.py:39-51 | eight pushes after a clear leave the bits reversed |
| ByteBuffer.ToByteMsb | spacelab_decoder/byte_buffer.py:53-60 | in "msb" mode the first bit pushed is the least significant |
| ByteBuffer.ToByteLsb | spacelab_decoder/byte_buffer.py:53-60 | in "lsb" mode the first bit pushed is the most significant |
| ByteBuffer.ToByteTwiceLsb | spacelab_decoder/byte_buffer.py:54-55 | in "lsb" mode `to_byte` reverses the slots in place, so a second call reads them in the opposite order |
| BitStrings.ShiftInValue | spacelab_decoder/byte_buffer.py:56-58 | shifting bits into an accumulator appends them below its binary digits |
| SyncWord.BinDigitAt | spacelab_decoder/sync_word.py:40 | digit j from the right of `bin(v)[2:]` is bit j of v |
| SyncWord.BinDigitsLength | spacelab_decoder/sync_word.py:40 | a value below 2^k has at most k binary digits |
| SyncWord.DigitBit | spacelab_decoder/sync_word.py:40 | digit i of the 8-digit `zfill` is bit 7 - i of the byte |
| SyncWord.ByteToBitfield | spacelab_decoder/sync_word.py:39-45 | `byte_to_bitfield` has eight elements: bit 7 - i at i ("msb") or bit i ("lsb") |
| SyncWord.Create | spacelab_decoder/sync_word.py:29-37 | a non-list raises; a list of n bytes gives its expansion, 8n bits |
| SyncWord.Expand | spacelab_decoder/sync_word.py:31-35 | n bytes expand to 8n bits; element k is element k % 8 of the field of byte k / 8, so each byte fills its own eight places in list order |
| BitDecoder.Create | spacelab_decoder/bit_decoder.py:33-41 | a valid decoder, nothing detected, empty window, a sync word of 8n bits |
| BitDecoder.CreateParts | spacelab_decoder/bit_decoder.py:37-39 | the window and sync word are what the BitBuffer and SyncWord constructors return for these arguments, which do not raise |
| BitDecoder.Reset | spacelab_decoder/bit_decoder.py:75-82 | reading stops and the assembler is cleared; nothing else changes |
| BitDecoder.DecodeBit | spacelab_decoder/bit_decoder.py:43-73 | raises exactly for an empty sync word; the window receives `bool(bit)`; a byte comes out only while a packet is read |
| BitDecoder.DecodeBitValid | spacelab_decoder/bit_decoder.py:43-73 | every step keeps the decoder's invariant |
| BitDecoder.DecodeBitOutput | spacelab_decoder/bit_decoder.py:55-64 | a byte is returned exactly when a packet is read, the eighth bit arrives and the byte is not the 300th |
| BitDecoder.DecodeBitByte | spacelab_decoder/bit_decoder.py:55-64 | the byte returned is the eight bits received, the first the most significant |
| BitDecoder.DecodeBitPending | spacelab_decoder/bit_decoder.py:55-73 | mid-byte, the bit joins the pending bits, unless the window matches the sync word, which restarts the packet |
| BitDecoder.DecodeBitIdle | spacelab_decoder/bit_decoder.py:53-73 | outside a packet nothing is returned, and a packet starts exactly when the window equals the sync word |
| BitDecoder.DecodeBitLimit | spacelab_decoder/bit_decoder.py:57-66 | the byte that would be the 300th abandons the packet unless the window matches at that bit |
| BitDecoder.FeedWindow | spacelab_decoder/bit_decoder.py:53 | the window is the bit buffer after pushing every bit fed, whatever else happens |
| BitDecoder.ReverseExpand | spacelab_decoder/bit_decoder.py:38 | the "lsb" sync word read backwards is the arrival order |
| BitDecoder.SyncWindow | spacelab_decoder/bit_decoder.py:37-68 | the window equals the sync word exactly when the last 8n bits received are the sync word: last byte first, each byte most significant bit first |
| Golay24.Parity | spacelab_decoder/golay24.py:148-165 | `_parity` is 0 or 1 |
| Golay24.ParityIsOnesMod2 | spacelab_decoder/golay24.py:148-165 | `_parity(x)` is the number of ones of x modulo 2 |
| Golay24.BIsLowBitsOfH | spacelab_decoder/golay24.py:40-43 | B[i] is `H[i] & 0xFFF` |
| Golay24.HIsIdentityThenB | spacelab_decoder/golay24.py:40-43 | H is the identity followed by B: row i is bit 23 - i followed by B[i] |
| Golay24.SyndromeBits | spacelab_decoder/golay24.py:78-81 | step 1: the syndrome has 12 bits, bit 11 - i the parity of `H[i] & r` |
| Golay24.QBits | spacelab_decoder/golay24.py:105-109 | step 4: q has 12 bits, bit 11 - i the parity of `B[i] & s` |
| Golay24.FirstNear | spacelab_decoder/golay24.py:94-122 | the search of steps 3 and 6 finds the first row within distance 2, or none |
| Golay24.Step3Weight | spacelab_decoder/golay24.py:93-98 | step 3's pattern flips at most three bits |
| Golay24.Step6Weight | spacelab_decoder/golay24.py:120-124 | step 6's pattern flips at most three bits |
| Golay24.ErrorWeightAtMost3 | spacelab_decoder/golay24.py:83-129 | every error pattern the decoder applies has weight at most three |
| Golay24.ZeroSyndromeUnchanged | spacelab_decoder/golay24.py:83-91 | a zero syndrome returns the received low 12 bits unchanged: as one value, or for a 3-byte list as their high nibble and low byte |
| Golay24.DecodeCloseToReceived | spacelab_decoder/golay24.py:57-132 | a successful decode returns 12 bits (a nibble and a byte for a 3-byte list) within three bit flips of the received word's low 12 bits |
| Golay24.DecodeFailsIff | spacelab_decoder/golay24.py:83-132 | -1 comes back exactly when none of steps 2, 3, 5 and 6 applies |
| Golay24.DecodeShape | spacelab_decoder/golay24.py:67-91 | lists shorter than two raise IndexError; the two-element result comes exactly from a corrected 3-byte list |
| Golay24.ThreeByteShape | spacelab_decoder/golay24.py:88-132 | a 3-byte list gives a nibble and a byte, or -1 |
| Golay24.ReceivedBigEndian | spacelab_decoder/golay24.py:67-72 | a 2-byte list reads as b0 * 2^12 + b1, a longer one as its first three bytes big-endian |
| Golay24.Decode | spacelab_decoder/golay24.py:57-132 | raises IndexError exactly for a list shorter than two; a nibble-and-byte pair comes only from a 3-byte list, and every other input gives one value (or -1) |
| GF256.Mod255 | spacelab_decoder/reed_solomon.py:311-321 | the result is in 0..254 and congruent to x modulo 255 |
| GF256.TablesInverse | spacelab_decoder/reed_solomon.py:43-82 | `alpha_to` and `index_of` are mutual inverses, with A0 = 255 paired with 0 |
| GF256.ZeroIsA0 | spacelab_decoder/reed_solomon.py:43-82 | A0 is the only log of 0 |
| GF256.GenPolyPalindrome | spacelab_decoder/reed_solomon.py:84-88 | the generator polynomial has 33 coefficients and is palindromic |
| ReedSolomon.LfsrFeedback | spacelab_decoder/reed_solomon.py:103-117 | a zero feedback term just shifts a zero in; otherwise the new last symbol is non-zero |
| ReedSolomon.Encode | spacelab_decoder/reed_solomon.py:90-119 | the parity has 32 symbols |
| ReedSolomon.Syndromes | spacelab_decoder/reed_solomon.py:165-174 | there are 32 syndromes |
| ReedSolomon.EncodeShortened | spacelab_decoder/reed_solomon.py:90-119 | `pad` acts as virtual leading zeros: k explicit zeros with pad - k give the same parity |
| ReedSolomon.EncodeZeros | spacelab_decoder/reed_solomon.py:90-119 | the all-zero message has all-zero parity |
| ReedSolomon.SyndromesShortened | spacelab_decoder/reed_solomon.py:165-174 | k explicit leading zeros with pad - k give the same syndromes |
| ReedSolomon.SynErrorZeroIff | spacelab_decoder/reed_solomon.py:176-182 | `syn_error` is zero exactly when every syndrome is |
| ReedSolomon.SyndromesOfZeros | spacelab_decoder/reed_solomon.py:165-174 | an all-zero block has all-zero syndromes |
| ReedSolomon.SyndromesPrefix | spacelab_decoder/reed_solomon.py:165-174 | the syndromes read only the first 255 - pad symbols |
| ReedSolomon.IndexFormInverts | spacelab_decoder/reed_solomon.py:176-180 | a syndrome converted to index form is A0 exactly when it is zero, and alpha to that index gives the syndrome back |
| ReedSolomon.BmRunMonic | spacelab_decoder/reed_solomon.py:186-234 | no Berlekamp-Massey step touches lambda's constant term 1 |
| ReedSolomon.LocatorConstant | spacelab_decoder/reed_solomon.py:236-249 | the locator's constant term is alpha^0, which is why each Chien sum starts at 1 |
| ReedSolomon.Degree | spacelab_decoder/reed_solomon.py:237-241 | deg_lambda is the highest index whose coefficient is not A0, or 0 |
| ReedSolomon.RootsBelowComplete | spacelab_decoder/reed_solomon.py:248-272 | an index is listed exactly when it is a root of lambda in 1..n - 1 |
| ReedSolomon.RootsBelowIncreasing | spacelab_decoder/reed_solomon.py:248-272 | the roots are found in strictly increasing order |
| ReedSolomon.LocInjective | spacelab_decoder/reed_solomon.py:243-263 | distinct roots have distinct error locations, since IPRIM is the inverse of PRIM modulo 255 |
| ReedSolomon.LocNext | spacelab_decoder/reed_solomon.py:247-272 | k advances by IPRIM from one candidate root to the next |
| ReedSolomon.ChienStep | spacelab_decoder/reed_solomon.py:249-253 | one step advances every live register by its index and sums them from 1: the locator evaluated at alpha^i |
| ReedSolomon.ChienSearch | spacelab_decoder/reed_solomon.py:243-272 | the incremental search returns the roots the direct evaluation finds (the first deg_lambda of them) with their error locations |
| ReedSolomon.ChienStopsEarly | spacelab_decoder/reed_solomon.py:265-268 | stopping after deg_lambda roots gives the search result |
| ReedSolomon.ChienRunsOut | spacelab_decoder/reed_solomon.py:248 | searching all of 1..255 with fewer roots gives the search result |
| ReedSolomon.OmegaIsProduct | spacelab_decoder/reed_solomon.py:278-285 | omega has deg_lambda coefficients, and coefficient i in polynomial form is coefficient i of the product of the syndrome and locator polynomials over GF(256) |
| ReedSolomon.DenTop | spacelab_decoder/reed_solomon.py:297 | the derivative loop starts at the even `min(deg_lambda, 31) & ~1` |
| ReedSolomon.CorrectOne | spacelab_decoder/reed_solomon.py:302-303 | one correction xors the error value into position loc - pad when the value exists and loc >= pad, and touches nothing else; with no value or loc < pad the data is unchanged |
| ReedSolomon.CorrectFrame | spacelab_decoder/reed_solomon.py:288-303 | the corrections touch only the located positions |
| ReedSolomon.CorrectApplies | spacelab_decoder/reed_solomon.py:288-303 | with distinct locations, each transmitted location with an error value receives exactly that value |
| ReedSolomon.LocInverse | spacelab_decoder/reed_solomon.py:247-263 | the location k stored for root i lies in 0..254 and PRIM * (k + 1) equals i modulo 255 |
| ReedSolomon.ApplyWell | spacelab_decoder/reed_solomon.py:288-309 | the corrections keep the message length, report one position `loc - pad` per root and change nothing else |
| ReedSolomon.ApplyFixes | spacelab_decoder/reed_solomon.py:302-303 | each located message symbol is xor-ed with its own error value |
| ReedSolomon.DecodeSpec | spacelab_decoder/reed_solomon.py:121-309 | zero syndromes return `data[:-32]` with no positions; otherwise it raises exactly when the locator has fewer roots than its degree, and on success there is one position per degree, each the location of its root, nothing else changes |
| ReedSolomon.LocationsDistinct | spacelab_decoder/reed_solomon.py:262-263 | distinct roots give distinct error positions |
| ReedSolomon.ZerosDecodeClean | spacelab_decoder/reed_solomon.py:182-184 | an all-zero block takes the early return |
| ReedSolomon.DecodeVerdictPrefix | spacelab_decoder/reed_solomon.py:166-276 | whether decode raises depends only on the first 255 - pad symbols |
| ReedSolomon.Decode | spacelab_decoder/reed_solomon.py:121-309 | on success the message keeps the length of `data[:-32]`, with one reported position per correction |
| Ax100.Take | spacelab_decoder/ax100.py:200 | Python's `s[:n]`, a negative n counting from the end |
| Ax100.Scramble | spacelab_decoder/ax100.py:269-286 | raises exactly when the data is non-empty and runs past the sequence; keeps the length |
| Ax100.ScrambleTwice | spacelab_decoder/ax100.py:269-286 | scrambling is its own inverse |
| Ax100.ScrambleOne | spacelab_decoder/ax100.py:233-243 | scrambling one byte at offset k is byte k of the block scrambled from 0 |
| Ax100.Unpack | spacelab_decoder/ax100.py:180-189 | the intended length: the 12-bit value, None for a failed decoding, an IndexError for a short list |
| Ax100.GolayLengthSpec | spacelab_decoder/ax100.py:183-189 | the length field raises exactly for fewer than two bytes, is missing exactly when Golay decoding fails, and is otherwise 12 bits within three flips of the received word |
| Ax100.GolayAsWrittenDiffers | spacelab_decoder/ax100.py:183 | as written, the unpacking keeps only v / 256 of the length v and turns a failure into a TypeError |
| Ax100.UnpackAsWritten | spacelab_decoder/ax100.py:183 | as written, unpacking raises exactly when the Golay result is not a nibble-and-byte pair |
| Ax100.GolayFieldAsWritten | spacelab_decoder/ax100.py:183 | as written, the field raises exactly when it is not three bytes or cannot be corrected; the length read is the high nibble, below 16 |
| Ax100.Create | spacelab_decoder/ax100.py:55-68 | default preamble and sync word, Golay errors not ignored, a fresh byte decoder |
| Ax100.SettersIndependent | spacelab_decoder/ax100.py:70-130 | each setter is read back by its getter and changes nothing else |
| Ax100.ResetDecoder | spacelab_decoder/ax100.py:258-267 | only the byte decoder's state is reset |
| Ax100.RsDecodeSpec | spacelab_decoder/ax100.py:195-197 | raises exactly when the Reed-Solomon decoder does; zero syndromes give the message part |
| Ax100.FrameLength | spacelab_decoder/ax100.py:180-189 | a length is read only from at least two bytes |
| Ax100.FrameLengthCases | spacelab_decoder/ax100.py:183-189 | the length is the Golay value, or the raw third byte when a failure is ignored |
| Ax100.Encode | spacelab_decoder/ax100.py:132-166 | the frame has the sizes of its parts and starts with preamble and sync word |
| Ax100.EncodeLayout | spacelab_decoder/ax100.py:150-164 | after the sync word come the Golay field and the scrambled data and parity |
| Ax100.EncodeDecode | spacelab_decoder/ax100.py:132-200 | decoding inverts encoding when the Golay field decodes to its length and the code word has zero syndromes |
| Ax100.DecodeOk | spacelab_decoder/ax100.py:180-200 | a frame whose length reads n and whose block decodes to m yields `m[:n - 32]` |
| Ax100.DecodeIgnoresState | spacelab_decoder/ax100.py:168-200 | the whole-frame decoder does not depend on the byte decoder's state |
| Ax100.DecodeUncorrectable | spacelab_decoder/ax100.py:191-197 | an uncorrectable frame has a block the Reed-Solomon decoder rejects |
| Ax100.BodyUncorrectable | spacelab_decoder/ax100.py:191-197 | once the length is read as n, an uncorrectable frame has a block the Reed-Solomon decoder rejects with pad 255 - n |
| Ax100.Decode | spacelab_decoder/ax100.py:168-200 | with Golay errors ignored the Golay error never comes back; a decoded frame has more than three bytes and gives at most max(length - 35, 0) bytes |
| Ax100.DecodeAsWrittenDiffers | spacelab_decoder/ax100.py:183-200 | as written, an uncorrectable field raises TypeError even when Golay errors are ignored, and a field reading v decodes the frame as one of length v / 256 where the intended reading uses v |
| Ax100.Collect | spacelab_decoder/ax100.py:212-254 | a completed block returns the position to 0 and was collected at position pktLen + 34; a position past the block (the lost decoder) resets and returns nothing |
| Ax100.ReadHeaderOutcome | spacelab_decoder/ax100.py:215-232 | the third byte sets up the block, raises IndexError for a short field, or resets and raises the Golay error |
| Ax100.ReadHeaderSets | spacelab_decoder/ax100.py:221-232 | a field reading v expects v - 32 data bytes |
| Ax100.ReadHeaderIgnores | spacelab_decoder/ax100.py:223-225 | an ignored failure takes the raw byte minus 32 |
| Ax100.ReadHeaderAsWrittenDiffers | spacelab_decoder/ax100.py:215-232 | as written, the third byte of an uncorrectable field raises TypeError with nothing reset, and a field reading v expects v / 256 - 32 data bytes where the intended reading expects v - 32 |
| Ax100.BlockCollects | spacelab_decoder/ax100.py:233-241 | a block byte before the last is descrambled at its offset and collected |
| Ax100.BlockCompletes | spacelab_decoder/ax100.py:242-244 | the last block byte completes the block and returns to position 0 |
| Ax100.FinishFrameOutcome | spacelab_decoder/ax100.py:246-252 | the corrected end of a block: a frame and an empty buffer, or an error and a reset |
| Ax100.AdvanceOutcomes | spacelab_decoder/ax100.py:202-256 | a frame comes back only at the end of a block; the corrected decoder resets on either error |
| Ax100.AsWrittenKeepsBlock | spacelab_decoder/ax100.py:244-250 | as written, a block that raises stays in the buffer at position 0 |
| Ax100.CollectAsWritten | spacelab_decoder/ax100.py:212-254 | as written, collecting a byte agrees with the intended reading at every position but the third byte |
| Ax100.AdvanceAsWritten | spacelab_decoder/ax100.py:202-256 | as written, one `decode_byte` step is the intended one without the reset on a Reed-Solomon error, except at the third byte |
| Ax100.DecodeByte | spacelab_decoder/ax100.py:202-256 | corrected: the configuration is kept; after the Golay error or an uncorrectable block the decoder is fresh (as written, lines 244-250 keep the block), and after a frame it is at position 0 with an empty buffer |
| Ax100.DecodeByteAsWritten | spacelab_decoder/ax100.py:202-256 | the configuration is kept; as written, after an uncorrectable block the decoder is at position 0 with the block still buffered |
| Ax100.AdvanceIn | spacelab_decoder/ax100.py:202-256 | with the third byte read by either reader, a step is the corrected step wherever the reader agrees with the intended one, and the as-written step wherever it agrees with the one as written and nothing is reset |
| Ax100.FeedAsWritten | spacelab_decoder/ax100.py:202-256 | fed as written, each byte is one DecodeByteAsWritten step on the whole state |
| Ax100.FeedQuiet | spacelab_decoder/ax100.py:202-256 | while no block completes, feeding bytes is collecting them, and each byte returns what its step reports |
| Ax100.IntendedHeaderSets | spacelab_decoder/ax100.py:215-232 | read as intended, the third byte sets the length the whole-frame decoder reads |
| Ax100.NibbleHeaderSets | spacelab_decoder/ax100.py:215-232 | read as written after an empty Golay buffer, a correctable field sets its high nibble as the length |
| Ax100.HeaderRaises | spacelab_decoder/ax100.py:215-221 | read as written, a Golay buffer that is not a correctable 3-byte field raises TypeError after the position has moved on, keeping the old length and leaving the field in the Golay buffer |
| Ax100.StepsHeader | spacelab_decoder/ax100.py:212-232 | with either reader, a frame's first three bytes leave the decoder at the first block byte as its header step sets it, with the block buffer kept and nothing reported but that step |
| Ax100.StepsBody | spacelab_decoder/ax100.py:233-241 | the block bytes are collected descrambled exactly as the whole-frame decoder descrambles them |
| Ax100.FeedFrame | spacelab_decoder/ax100.py:202-256 | with either reader, a frame fed byte by byte returns nothing before its last byte but what its third byte reports, and the last byte decodes the collected block after whatever the buffer held |
| Ax100.FinishMatchesDecode | spacelab_decoder/ax100.py:168-200 | the corrected end of a frame's block is what `decode` returns or raises for the frame |
| Ax100.StreamMatchesBatch | spacelab_decoder/ax100.py:168-256 | from idle, the corrected byte decoder returns what `decode` returns or raises, at the last byte, and is idle again |
| Ax100.RejectedStays | spacelab_decoder/ax100.py:244-250 | without the reset, a rejected block leaves the decoder as it was |
| Ax100.KeepsUncorrectable | spacelab_decoder/ax100.py:244-250 | without the reset, a frame read from an empty block buffer whose block is rejected raises at its last byte and leaves that block in the buffer at position 0, whatever its header step reported |
| Ax100.StaleBlockRepeats | spacelab_decoder/ax100.py:244-252 | without the reset, after a rejected block the next frame of that length raises too, whatever its bytes and its header step; the buffer grows and stays rejected |
| Ax100.UncorrectablePoisons | spacelab_decoder/ax100.py:244-252 | with the length read as intended but no reset, one uncorrectable frame makes the next frame of that length raise, even a good one |
| Ax100.UncorrectablePoisonsAsWritten | spacelab_decoder/ax100.py:202-256 | as written, from a fresh decoder: a frame with an uncorrectable Golay field raises TypeError at its third byte, and when its 32 block bytes are rejected with pad 223 it raises at its last byte too; then the next 35 bytes, whatever they are, raise TypeError at the third and the Reed-Solomon error at the last, and both buffers grow |
| Ax100.FirstStaleFrame | spacelab_decoder/ax100.py:215-250 | as written, from a fresh decoder, a frame with an uncorrectable Golay field and a rejected 32-byte block raises TypeError at byte 3 and the Reed-Solomon error at byte 35, and leaves its field and its block in the buffers |
| Ax100.StreamRecovers | spacelab_decoder/ax100.py:202-256 | corrected, any frame after any other decodes as `decode` decodes it |
| Csp.Violation | spacelab_decoder/csp.py:92-105 | the first failing range check, none exactly for in-range arguments |
| Csp.Encode | spacelab_decoder/csp.py:92-121 | each out-of-range argument raises its own error, checked in order; otherwise four header elements and the payload unchanged |
| Csp.EncodeAsWritten | spacelab_decoder/csp.py:92-121 | as written, accepts exactly the in-range arguments |
| Csp.Iota | spacelab_decoder/csp.py:142-145 | `list(range(n))` |
| Csp.EncodePing | spacelab_decoder/csp.py:123-147 | a ping succeeds exactly for valid priority and addresses, and carries 0, 1, ..., n - 1 |
| Csp.DecodeHeader | spacelab_decoder/csp.py:165-199 | every field is within its width |
| Csp.Decode | spacelab_decoder/csp.py:149-163 | raises exactly for fewer than four elements; otherwise the header fields are in range |
| Csp.AddressSums | spacelab_decoder/csp.py:110-114 | for in-range arguments each bitwise or joins disjoint bits, so the elements are plain sums |
| Csp.DecodeAddresses | spacelab_decoder/csp.py:179-183 | the decoder recovers priority, addresses and ports from the encoded elements |
| Csp.DecodeFlags | spacelab_decoder/csp.py:184-187 | the decoder reads the flags of `hmac*8 + xtea*4 + rdp*2 + crc` |
| Csp.DecodeEncode | spacelab_decoder/csp.py:107-199 | corrected round trip: decoding an encoded header gives back every field and flag |
| Csp.DecodeEncodeAsWritten | spacelab_decoder/csp.py:116-187 | as written, rdp always decodes as 0 and xtea as xtea or rdp |
| Csp.RdpReadsAsXtea | spacelab_decoder/csp.py:116 | a packet with only rdp set decodes with xtea set and rdp clear |
| Csp.AsWrittenAgreesWithoutRdp | spacelab_decoder/csp.py:116 | without rdp the two encoders agree, so `encode_ping` is unaffected |
| Csp.ElementBounds | spacelab_decoder/csp.py:110-116 | elements 0, 1 and 3 are bytes; element 2 is `dst_port*64 + src_port`, a byte exactly when dst_port < 4 |
| Csp.DecodePing | spacelab_decoder/csp.py:123-199 | a ping decodes to the caller's priority and addresses, port 1 at both ends, no flags |
| Link.New | spacelab_decoder/link.py:27-40 | every field starts empty |
| Link.Set | spacelab_decoder/link.py:61-263 | the setter's field reads back the new value; every other getter is unchanged |
| Link.SetDirection | spacelab_decoder/link.py:101-114 | the lower-cased direction is stored and read back; nothing else changes |
| Link.SetDirectionAccepts | spacelab_decoder/link.py:101-114 | accepted exactly for "up" or "down" in any mix of cases, stored in lower case |
| Link.SetSet | spacelab_decoder/link.py:61-263 | setting a field twice keeps the second value; setting two fields commutes |
| Text.LowerMatchesIff | spacelab_decoder/link.py:110-111 | a string lowers to a lower-case word exactly when it spells that word with each letter in either case |
| Text.Lower | spacelab_decoder/link.py:110 | the length is kept and each ASCII capital becomes its small letter, every other character unchanged |

## Left out

- Ax100.Encode: `Golay24.encode` is an unimplemented stub that returns None (golay24.py:45-55), so `encode` as written always raises TypeError at `pkt += gol.encode(...)` (ax100.py:153). Ax100.Encode is the encoder this code would be with a working Golay encoder: it takes the Golay field as a parameter.
- Ax100.EncodeDecode: takes zero syndromes of the encoded block as a hypothesis. The algebra showing that `encode` produces a code word, and that `decode` corrects up to 16 symbol errors, is not proved.
- Reed-Solomon erasures (`eras_pos`, `no_eras`, reed_solomon.py:188-196) are left out. Every caller decodes without erasures, so `ReedSolomon.Decode` models `no_eras == 0`.
- ReedSolomon.Decode: requires at least 255 - pad symbols, as the syndrome loop reads that many. `Ax100.RsDecode` models the IndexError a shorter block raises. ReedSolomon.Encode has the same requirement for its 223 - pad data symbols.
- numpy integer types are not modelled beyond holding symbols in 0..255. The decoder keeps its registers, roots and locations in `uint8` arrays. The model computes every exponent sum exactly before `_mod255`, as the libfec algorithm this code follows does. Examples are `reg[j] + j` (reed_solomon.py:252) and `omega[i] + i * root[j]` (reed_solomon.py:292). Any 8-bit wrap-around numpy applies to these sums is not modelled, and neither is one in the error positions `loc - pad` (reed_solomon.py:307), which are plain integers here.
- Python's run-time type checks are left out: the RuntimeErrors of bit_buffer.py:34-37, bit_buffer.py:51, 62-63 and byte_buffer.py:40, 46-47. Dafny's types admit only the accepted kinds of argument.
- SyncWord.ByteToBitfield: only byte values 0..255 are modelled. `bin()` of a larger or negative value gives more than eight digits or a minus sign.
- Link.Set: each value must have the kind the docstrings give (string, integer or list). The source stores any object.
- `Text.Lower` lowers ASCII letters only. Python's `str.lower()` also lowers other Unicode letters.
- Csp.Decode: returns the decoded header so that properties can be stated about it. The source computes the header and then returns None (csp.py:149-163).
- `_decode_pl` (csp.py:201-202) is a stub and is left out.
- CSP packet elements are natural numbers, not checked bytes, since `encode` does not mask element 2 (see Csp.ElementBounds).
- `__str__` and `__repr__` (link.py:42-59, byte_buffer.py:62-66) only format text and are left out.
- Aliasing is left out because every value here is immutable. `set_preamble` of the link record (link.py:194) stores the caller's list itself, so a later change to that list shows through `get_preamble`; the model stores the value at the time of the call. `set_sync_word` (link.py:214) and the AX100 setters (ax100.py:80, 101) store copies.
- Ax100.Decode / Ax100.DecodeByte: both read the Golay field as intended (the 12-bit length, and -1 for a failed decoding), not as written (see Findings). The as-written reading is Ax100.DecodeAsWritten, Ax100.ReadHeaderAsWritten and Ax100.DecodeByteAsWritten. The lemmas built on Decode and DecodeByte therefore use the intended header: FrameLength, FrameLengthCases, ReadHeaderOutcome, ReadHeaderSets, ReadHeaderIgnores, EncodeDecode and StreamMatchesBatch. So do UncorrectablePoisons and AsWrittenKeepsBlock, about the missing reset after a Reed-Solomon error; Ax100.AdvanceAsWritten shows that the step they use equals the as-written step except at the third byte. StaleBlockRepeats and KeepsUncorrectable take the reader and the header step as parameters. With the reader as written, their hypotheses hold only on the TypeError route described under Findings, and Ax100.UncorrectablePoisonsAsWritten states the missing reset entirely as written on that route. Ax100.DecodeByte also resets the decoder after a Reed-Solomon error, unlike ax100.py:244-250; the as-written step is Ax100.DecodeByteAsWritten.
- Ax100.StaleBlockRepeats: with the reader as written, its hypotheses hold only on the TypeError route of Ax100.HeaderRaises, with the length 0 of a decoder that has read no field since it was created or reset (35-byte frames). A field that corrects sets a length of at most 15, and a TypeError keeps that length, so the block has at most 15 symbols. With pad 255 - n, all of them fit within the 16 symbol errors the decoder corrects, so such a block is never rejected. This last fact is not proved here.
- Ax100.KeepsUncorrectable: with the reader as written, its hypotheses hold only on the TypeError route, where the header step is Raised(TypeError) and the Golay buffer keeps the field. Its instances with a correctable field are empty, for the reason given for Ax100.StaleBlockRepeats.
- Ax100.UncorrectablePoisonsAsWritten: no concrete input is shown to meet its hypotheses. Evaluating the bit-level Golay functions on literals (for example that the field 3, 252, 207 fails) and a Reed-Solomon rejection of a concrete block are beyond what the verifier evaluates cheaply. A block of 32 symbols with more than 16 that are not zero cannot be corrected to the all-zero code word that pad 223 leaves.
- ReedSolomon.Encode: the contract states only the parity length. That the parity makes a code word (all-zero syndromes) is not proved. The shortening and zero-message properties are ReedSolomon.EncodeShortened and ReedSolomon.EncodeZeros.
- ReedSolomon.Syndromes: the contract states only the count. That each syndrome is the block evaluated at a root of the generator is not proved. The shortening, prefix and zero-block properties are separate lemmas.
- ReedSolomon.Decode: the contract states only the shape of a success. The outcome is stated by ReedSolomon.DecodeSpec; that the corrected block is a code word is not proved.
- Csp.EncodePing: `num_bytes` is an explicit parameter. The default of 100 (csp.py:123) is a call with 100.
- BitDecoder.DecodeBit: `bool(bit)` is modelled as `bit != 0` for integer bits.
- The rest of the repository is not part of this model: the GUI, audio input, the GMSK demodulator, packet and satellite descriptions, logging and the time sync.

## Findings

| source | as written | input that shows it | evidently intended | confidence | as-written member | corrected member |
|---|---|---|---|---|---|---|
| spacelab_decoder/ax100.py:183 | unpacks `gol.decode(...)` (here and at line 221) as `(pkt_len, golay_err)`. For a 3-byte list that call returns `[high nibble, low byte]`, so the length becomes the high nibble. A failed decoding returns the integer -1, which cannot be unpacked (TypeError). | a Golay field correcting to length 40 (nibble 0, byte 40): the length reads 0 | the length is the 12-bit value `hi*256 + lo`, and -1 when the field is uncorrectable | not executed | Ax100.UnpackAsWritten, Ax100.GolayAsWrittenDiffers, Ax100.DecodeAsWrittenDiffers, Ax100.ReadHeaderAsWrittenDiffers | Ax100.Unpack, Ax100.GolayLengthSpec |
| spacelab_decoder/ax100.py:244-250 | the position returns to 0 before `rs.decode`. When decode raises, the clear at line 250 is skipped and the block stays in `_decoder_rs_buf` | as written, from a fresh decoder: a Golay field the Golay decoder cannot correct (for example 3, 252, 207) raises TypeError at line 221, after the position moved on and before anything is reset, so the length stays 0. Then 32 bytes whose block the Reed-Solomon decoder rejects with pad 223 (more than 16 symbols that are not zero). Every later 35 bytes raise TypeError at the third byte (the Golay buffer holds six bytes) and the Reed-Solomon error at the last, whatever they are. Once the first finding is fixed, any uncorrectable frame of length n followed by a correct frame of length n shows it | the decoder is reset when the block raises, as it is for the Golay error at line 227 | not executed | Ax100.UncorrectablePoisonsAsWritten, Ax100.FirstStaleFrame, Ax100.UncorrectablePoisons, Ax100.StaleBlockRepeats | Ax100.StreamRecovers, Ax100.StreamMatchesBatch |
| spacelab_decoder/csp.py:116 | shifts `rdp` left by 2, onto the xtea bit. `_decode_header` reads rdp at bit 1 (csp.py:186) | `encode(0, 0, 0, 0, 0, False, False, True, False, [])` decodes with xtea = 1 and rdp = 0 | `int(rdp) << 1` | not executed | Csp.EncodeAsWritten, Csp.RdpReadsAsXtea | Csp.Encode, Csp.DecodeEncode |
