# The coding core of mozjpeg and the tokenizer of libprisma

This project models the coding core of the mozjpeg fork in `mozjpeg/mozjpeg` and proves that what its
encoders write its decoders read, that its optimizers find optima, and that the syntax highlighter in
`libprisma` loses no character of a text. It is plain Dafny: `dafny verify dfyconfig.toml` checks everything.

**The arithmetic coder** (`jcarith.c`, `jdarith.c`, `jaricom.c`). `IntervalCoding` is the coder of Annex D of
ITU-T T.81 on unbounded integers: a statistics table and an interval that is split by every decision.
`ArithEncoder.Encoder` and `ArithDecoder.Decoder` are the two register machines; they keep the
interval in different layouts. `ProbabilityLearning` is what the estimates do in any run: they follow the
symbols, and a symbol that keeps coming becomes the more probable one of its bin. The invariant of the encoder is that finished bytes, pending zeros, the
held byte, the stacked 0xFF bytes and the C register together are the exact low end of the interval.
`ArithSession.RoundTrip` runs one into the other for any bits and any contexts that depend on earlier
bits only.

On top of it lie the coefficient layers: the decisions of a magnitude, a DC difference, a band, a
refinement (`ArithCoefficients`, `ArithBlocks`), the four progressive routines and the sequential one
(`ArithScans`), whole scans over an image (`ArithImages`), and whole scripts (`ArithScript`) that
`ScanScript.ValidateScript` accepts. `McuEncoder` and `McuDecoder` are the MCU routines as classes that
drive the two coders, write blocks in place and restart; `ArithRestarts` are the segments of a scan, and
`ArithTransfer.TransferScan` sends a scan through both classes. `ArithBins` shows which statistics bins are
ever touched.

**Restarts** (`jdmarker.c` and both entropy coders). `RestartIntervals` cuts a scan into segments;
`RestartMarkers` is the output with markers between stuffed segments, and next_marker, which finds the next
marker from wherever reading stands.

**The scan search** (`jcparam.c`, `jcmaster.c`). `ScanSearch` makes the list of scans to try;
`ScanMaster.Master` codes them one after the other, lets their sizes decide, skips what need not be tried
and copies the chosen scans out. `ScanSelection` is what is known about the buffers, `ScanChoice` what the
sizes say, `SearchedScripts` how scripts grow bit by bit to one that is valid and complete.

**The Huffman coder** (`jchuff.c`, `jdhuff.c`, `jdhuff.h`). `HuffmanOptimality` and `HuffmanForest` prove
`HuffmanTable.AssignSizes` optimal, `HuffmanLimit` the 16-bit limiting, `HuffmanShortest` that no other
limiting leaves more of the short words alone, `HuffmanOverflow` when the counts of
lengths overflow their bytes; `HuffmanCodes` and
`HuffmanBuilders` are the two derived-table builders, `HuffmanDecoding` and `HuffmanSymbols` what their
tables mean. `HuffmanBlocks` and `HuffmanScans` are the symbols and extra bits of blocks and the decoder
that gets the blocks back. `BitWriting` is the 64-bit accumulator with byte stuffing, `BitReading` the
bit buffer of the decoder. `HuffmanEncoder`, `HuffmanGather`, `HuffmanDecoder` and `HuffmanFast` are the
output pass, the statistics pass and the two decoding paths; `HuffmanRestarts` are the segments between
restarts. `HuffmanTransfer` and `HuffmanOptimized` put them together, the latter with tables made from the
counts of the first pass.

**Progressive Huffman coding** (`jcphuff.c`). `RefinementCoding` is the decoder of section G.1.2.3 of ITU-T
T.81 for the refinement of AC coefficients, and the invariant of an encoder that defers end-of-band runs:
whatever a pending run still grows to, what is written and what is pending decode to the blocks so far.
`RefinementEncoder.Encoder` is the encoder with its run counter and its buffer of correction bits,
`ProgressiveBits.BitEmitter` its 24-bit accumulator, `RefinementSymbols` the symbols it asks the table for.

**Quantization** (`jcdctmgr.c`). `Reciprocal` proves the division by multiplication exact for every
word width. `TrellisAc` and `TrellisDc` are the two dynamic programs of trellis quantization. They search
among candidates and are proved to find a minimum over all values, for AC up to the rounded quotient
(`TrellisChoice`), for DC as many steps around it as there are candidates; `TrellisRate` shows that the rate they minimize is the number of bits
the Huffman encoder spends.

**The tokenizer** (`libprisma/Sources`). `TokenLists` is the circular doubly linked list of nodes,
`Grammars` what the tokenization of a text by a grammar is, at every depth, `SyntaxHighlighter` the matching of patterns that cuts and
splices the list, with greedy patterns and rematching. Its termination argument holds for an arbitrary
search function in place of the regular expressions.

Conventions. Blocks are in zigzag order. A word of the program is a natural number; wrap-around,
truncation and stale high bits are written out. Where the program joins two values with a bitwise "or"
whose operands have no bit in common, the model adds them. A run that ends in an error exit returns a
failure value. The destination is an append-only byte string, the source a byte string behind which
end-of-image markers follow without end. The costs of the trellis are exact real numbers.

Findings. The sentinel of a new token list has no back link until something happens at the end of the
list (`TokenLists.TokenList.constructor`, `AddAfter`, `RemoveNext`, `RemoveRange`); nothing reads it before.

A rematch is meant to apply every pattern before the one that caused it. It ends too early if and only if an
earlier token has the same name and a pattern of that number: `SyntaxHighlighter.RepeatedName` is such a
grammar, `SyntaxHighlighter.MatchGrammar` the exact condition.

The checked and the fast Huffman path part exactly on fill bytes in front of a stuffed zero, which the one
takes for a data byte and the other for a marker (`HuffmanFast.AgreesUnlessFilled`, `HuffmanFast.FilledZero`).
The coefficients of the attempt that is then given up stay in the blocks where decoding again does not write
(`HuffmanFast.DecodeMcu`).

16-bit coefficients may differ by more than the decoder reads: -32768 followed by 32767 is refused
(`ArithImages.ExtremesAreRefused`). A scan is decoded without error if and only if every DC difference that
it codes is at most 32768 (`ArithImages.ScanIsRead`).

bits[] counts in unsigned bytes. If 255 symbols occur equally often, they and the pseudo-symbol get 8 bits
each, the count of 256 becomes 0, and the search for the largest length in use runs off the front of the
array (`HuffmanOverflow.EqualCounts`, `HuffmanTable.GenOptimalTable`). It takes 256 codes of one length, so
at most 254 symbols are always safe (`HuffmanOverflow.FewSymbols`), and no scan has more
(`HuffmanOptimized.CountsFit`).

## Model

| member | source | states |
|---|---|---|
| IntervalCoding.RunWithinUnit | mozjpeg/mozjpeg/jcarith.c:229-321 | after any decisions the interval lies inside the unit interval, so no carry ever leaves the first byte |
| ProbabilityLearning.EstimateFollows | mozjpeg/mozjpeg/jcarith.c:236-269 | in any run a decision moves the estimate of its own bin only: after a less probable symbol it rises or, if and only if it does not, the symbols change places; after a more probable one it falls if the interval was renormalized, and stays otherwise |
| ProbabilityLearning.SymbolIsLearned | mozjpeg/mozjpeg/jaricom.c:35-151 | after any run, 29 equal decisions in a bin make their symbol its more probable one, except in the bin with the fixed estimate |
| ProbabilityLearning.SymbolIsTrusted | mozjpeg/mozjpeg/jaricom.c:35-151 | after any run, equal decisions in a bin end at the smallest estimate of the table |
| ProbabilityLearning.MoreProbableTakesMore | mozjpeg/mozjpeg/jcarith.c:245-267 | the more probable symbol never gets the smaller part of the interval |
| ArithEncoder.CarryNeedsHeldByte | mozjpeg/mozjpeg/jcarith.c:284-321 | while every byte that has left the register is 0xFF, the register cannot carry: a carry always finds a held byte to go into |
| ArithEncoder.Encoder.OutputByte | mozjpeg/mozjpeg/jcarith.c:284-321 | emitting, stacking or propagating a carry keeps the value of all bytes so far exact; nothing emitted changes any more |
| ArithEncoder.Encoder.Encode | mozjpeg/mozjpeg/jcarith.c:229-321 | one call advances the model by exactly one decision, statistics included, and keeps the exact low end of the interval; what the statistics learn is stated by ProbabilityLearning |
| ArithEncoder.FinalPoint | mozjpeg/mozjpeg/jcarith.c:148-156 | the point that finish_pass picks lies in the interval and ends in 15 zero bits |
| ArithEncoder.Encoder.FinishPass | mozjpeg/mozjpeg/jcarith.c:143-203 | the destination holds the stuffed form of a byte string inside the final interval, without a zero byte at its end |
| ArithDecoder.Decoder.Decode | mozjpeg/mozjpeg/jdarith.c:115-191 | the register loop computes the pure decoding step, byte reading and statistics included |
| DataSource.NextDataIs | mozjpeg/mozjpeg/jdarith.c:115-150 | reading undoes the stuffing, and supplies zeros behind the last byte of a segment |
| ArithRoundTrip.NarrowedMatches | mozjpeg/mozjpeg/jdarith.c:152-190 | the decoder takes the part of the interval that the code lies in and stays in the encoder's interval |
| ArithRoundTrip.DecodedFollows | mozjpeg/mozjpeg/jdarith.c:115-191 | as long as the code lies in the interval after a decision, that decision is what is decoded |
| ArithSession.SameStatistics | mozjpeg/mozjpeg/jdarith.c:115-191 | encoder and decoder hold identical statistics after every decision |
| ArithSession.RoundTrip | mozjpeg/mozjpeg/jcarith.c:143-321 | any bits, coded in contexts that depend on earlier bits only, come back from the bytes written |
| ArithCoefficients.CategoryIsRead | mozjpeg/mozjpeg/jdarith.c:284-300 | the magnitude category comes back, and overflow is reported exactly when the magnitude needs 16 bits |
| ArithCoefficients.PatternIsRead | mozjpeg/mozjpeg/jdarith.c:305-309 | the magnitude bits below the leading one come back |
| ArithCoefficients.DcIsRead | mozjpeg/mozjpeg/jdarith.c:250-321 | a DC difference comes back modulo 2^16 with the same conditioning category, and decoding fails if and only if its magnitude is above 32768 |
| ArithCoefficients.ContextTellsSize | mozjpeg/mozjpeg/jcarith.c:442-447 | the conditioning category of a nonzero difference is zero up to half of 2^L, large beyond 2^U and small in between, with the sign |
| ArithBlocks.BandIsRead | mozjpeg/mozjpeg/jdarith.c:329-395 | a band of AC coefficients comes back with its point transform applied |
| PointTransform.OneBitFiner | mozjpeg/mozjpeg/jcarith.c:597-682 | a coefficient at Al is the one at Al + 1 with one more magnitude bit |
| ArithBlocks.RefineIsRead | mozjpeg/mozjpeg/jdarith.c:436-497 | refinement takes every coefficient of the band from Al + 1 to Al |
| ArithScans.DcScaled | mozjpeg/mozjpeg/jdarith.c:250-321 | the 16-bit DC value that is stored is the arithmetic shift of the original, whatever wrapped around on the way |
| ArithScans.BlockIsRead | mozjpeg/mozjpeg/jdarith.c:250-624 | each of the five routines takes a block from the bits it held to the bits the scan sends |
| ArithImages.ScanIsRead | mozjpeg/mozjpeg/jcarith.c:372-824 | a scan decodes without error if and only if every DC difference it codes is at most 32768; then it advances every block visited, leaves the others alone and keeps the DC states of both sides in step |
| ArithImages.SequentialRoundTrip | mozjpeg/mozjpeg/jcarith.c:690-824 | a sequential scan decodes without error if and only if every DC difference is within the limit, and then gives back every block exactly |
| ArithImages.ExtremesAreRefused | mozjpeg/mozjpeg/jdarith.c:284-300 | the smallest 16-bit value followed by the largest is beyond the limit |
| ArithImages.VisitIsRefused | mozjpeg/mozjpeg/jdarith.c:284-300 | a block whose difference is beyond the limit stops decoding |
| ScanScript.ValidateScript | mozjpeg/mozjpeg/jcmaster.c:150-289 | the loop over last_bitpos accepts exactly the scripts that a declarative reading of the rules accepts, and names the scan that breaks them |
| ArithScript.ScansAdvance | mozjpeg/mozjpeg/jcmaster.c:181-274 | the first n scans of an accepted script decode without error if and only if their differences are within the limit; then every coefficient holds exactly the bits that last_bitpos says |
| ArithScript.ProgressiveRoundTrip | mozjpeg/mozjpeg/jcmaster.c:150-289 | for every accepted progressive script whose differences are within the limit, and no other, decoding gets to the end; each AC coefficient then is sign(x) * ((abs(x) >> b) << b) and each DC (x >> b) << b, b its last_bitpos |
| ArithScript.CompleteRoundTrip | mozjpeg/mozjpeg/jcmaster.c:276-288 | an accepted script that sends every bit of every coefficient gives back the image exactly, if all differences are within the limit |
| ArithImages.ExactWhenComplete | mozjpeg/mozjpeg/jcmaster.c:276-288 | a coefficient sent down to bit 0 is exact |
| McuEncoder.EntropyEncoder.EncodeDc | mozjpeg/mozjpeg/jcarith.c:394-452 | the loop emits exactly the decisions of the difference and leaves the DC state that the specification gives |
| McuEncoder.EntropyEncoder.EncodeBand | mozjpeg/mozjpeg/jcarith.c:463-554 | the loop emits exactly the decisions of the band |
| McuEncoder.EntropyEncoder.EncodeRefinedBand | mozjpeg/mozjpeg/jcarith.c:597-682 | the loop emits exactly the decisions of the refinement |
| McuEncoder.EntropyEncoder.EncodeMcu | mozjpeg/mozjpeg/jcarith.c:372-824 | in front of an MCU that begins a restart interval the segment is finished and its marker written; the decisions coded since are those of the segment so far |
| McuEncoder.EntropyEncoder.EmitRestart | mozjpeg/mozjpeg/jcarith.c:329-363 | the finished segment is a code for its decisions, followed by its marker, and coding starts from scratch |
| McuEncoder.EntropyEncoder.FinishPass | mozjpeg/mozjpeg/jcarith.c:143-203 | the destination holds a code for each segment, stuffed, with the markers 0 to 7 in turn between them |
| McuDecoder.EntropyDecoder.DecodeDc | mozjpeg/mozjpeg/jdarith.c:250-321 | the register code reads a difference as specified, error included |
| McuDecoder.EntropyDecoder.DecodeBand | mozjpeg/mozjpeg/jdarith.c:329-395 | the block written in place is the band as specified, error included |
| McuDecoder.EntropyDecoder.DecodeRefinedBand | mozjpeg/mozjpeg/jdarith.c:436-497 | the block refined in place is the refinement as specified, error included |
| McuDecoder.EntropyDecoder.DecodeMcu | mozjpeg/mozjpeg/jdarith.c:250-624 | behind a restart marker, or from the bits that come next, an MCU is decoded in place as the pure decoder does; a wrong marker makes it fail, and after an error nothing is decoded up to the next restart |
| McuDecoder.EntropyDecoder.ProcessRestart | mozjpeg/mozjpeg/jdarith.c:198-230 | if the next marker is the one expected, decoding starts afresh behind it, however much of the segment was read and whether or not there was an error |
| ArithTransfer.TransferScan | mozjpeg/mozjpeg/jdarith.c:198-624 | both classes run back to back, with any restart interval: no error is reported if and only if every DC difference, taken within its segment, is within the limit, and then every content block has advanced to the bits of the scan |
| ArithBins.BlockInArea | mozjpeg/mozjpeg/jcarith.c:56-70 | every statistics bin of a block lies below 49 for DC and below 245 for AC |
| ArithBins.ScanInArea | mozjpeg/mozjpeg/jcarith.c:690-824 | the same for a whole scan whose differences are within the limit |
| RestartIntervals.CutEvenly | mozjpeg/mozjpeg/jchuff.c:748-756 | every segment but the last has as many MCUs as the restart interval, and the last one at least one |
| RestartIntervals.CutJoins | mozjpeg/mozjpeg/jchuff.c:748-756 | the segments hold all MCUs in their order |
| RestartIntervals.CutSnoc | mozjpeg/mozjpeg/jchuff.c:748-756 | counting down from the interval begins a new segment exactly when the last one is full |
| RestartMarkers.NextMarker | mozjpeg/mozjpeg/jdmarker.c:887-932 | skipping bytes, stuffed zeros and fill bytes ends at the marker at which reading the data ends |
| RestartMarkers.SegmentInOutput | mozjpeg/mozjpeg/jdmarker.c:1126-1153 | in the output of an encoder the next marker stands behind the current segment, and the next segment behind it |
| ScanSearch.SearchProgression | mozjpeg/mozjpeg/jcparam.c:725-844 | the loops fill in the 23 scans for gray and the 64 for YCbCr images in the order that the search counts on |
| SearchedScripts.CompleteIsValid | mozjpeg/mozjpeg/jcmaster.c:150-289 | a script that comes down to bit 0 in every band is valid and sends every bit |
| ScanChoice.SplitTried | mozjpeg/mozjpeg/jcmaster.c:653-678 | after each split tried the cheapest so far is known, the first of equally cheap ones, and the search stops exactly where its conditions say |
| ScanChoice.ChosenAtEnd | mozjpeg/mozjpeg/jcmaster.c:634-743 | in the end Al is the first bit at which one bit more does not pay, and the split the cheapest of those tried |
| ScanMaster.Master.SelectLumaAl | mozjpeg/mozjpeg/jcmaster.c:634-651 | another bit for luma is better, or the search goes on with the splits; the pass number is that of the scan counted as last |
| ScanMaster.Master.SelectLumaSplit | mozjpeg/mozjpeg/jcmaster.c:653-678 | the cheapest split so far is kept; on an early exit scan and pass number and is_last_pass agree |
| ScanMaster.Master.SelectChromaDc | mozjpeg/mozjpeg/jcmaster.c:682-686 | chroma DC is interleaved if that takes no more bytes than two scans |
| ScanMaster.Master.SelectChromaAl | mozjpeg/mozjpeg/jcmaster.c:688-713 | another bit for chroma is better, or the search goes on with the splits |
| ScanMaster.Master.SelectChromaSplit | mozjpeg/mozjpeg/jcmaster.c:715-743 | the same for the splits of both chroma components |
| ScanMaster.Master.CopyScans | mozjpeg/mozjpeg/jcmaster.c:746-803 | exactly the chosen scans and the refinements they need are copied, with their actual Al a valid script that sends every bit of every coefficient |
| ScanMaster.Master.CodeScan | mozjpeg/mozjpeg/jcmaster.c:844-855 | after every scan, whatever its size and however many scans were skipped, the pass number is that of the next scan and is_last_pass says whether there is none |
| ScanMaster.Master.Run | mozjpeg/mozjpeg/jcmaster.c:621-855 | for all sizes the search ends with the last pass, the choices are the best that it can find, and the output is a complete valid script |
| HuffmanOptimality.Siblings | mozjpeg/mozjpeg/jchuff.c:967-997 | some cheapest code gives the two rarest symbols the same, longest length |
| HuffmanOptimality.LowerBound | mozjpeg/mozjpeg/jchuff.c:967-1012 | no assignment of lengths that satisfies Kraft's inequality costs less than the merges |
| HuffmanForest.MergeForest | mozjpeg/mozjpeg/jchuff.c:997-1011 | a merge keeps codesize[] and others[] a forest of chains whose trees each fill the code space |
| HuffmanTable.FindRarest | mozjpeg/mozjpeg/jchuff.c:970-990 | the search finds the rarest symbol, the last one in case of ties |
| HuffmanTable.AssignSizes | mozjpeg/mozjpeg/jchuff.c:955-1012 | the arrays end with complete code sizes whose total cost is that of the merges |
| PrefixCodes.PrefixCodeIsKraft | mozjpeg/mozjpeg/jchuff.c:912-939 | every prefix code satisfies Kraft's inequality |
| PrefixCodes.OptimalAmongPrefixCodes | mozjpeg/mozjpeg/jchuff.c:953-1012 | the sizes before limiting spend no more bits than any prefix code on the counted symbols and the pseudo-symbol |
| HuffmanLimit.ShortWordExists | mozjpeg/mozjpeg/jchuff.c:1038-1042 | the search for a shorter length in use always ends above 0 |
| HuffmanLimit.ShortenedKeeps | mozjpeg/mozjpeg/jchuff.c:1043-1047 | one adjustment keeps the number of code words and the code space they fill |
| HuffmanShortest.ShortenedKeepsShort | mozjpeg/mozjpeg/jchuff.c:1039-1047 | an adjustment that splits the longest word below the last two lengths keeps as many short words as can be kept |
| HuffmanShortest.NoneKeepsMore | mozjpeg/mozjpeg/jchuff.c:1030-1036 | no other way to bring as many words down to 16 bits has more words of the first length in which it differs, unless what it gives up there had been left alone |
| HuffmanTable.LimitLengths | mozjpeg/mozjpeg/jchuff.c:1038-1049 | the loops end, no length above 16 is left in use, no byte overflows on the way, and short words stay: all of a length and below if those behind fit into 16 bits, and where that is not so one word more would leave no room |
| HuffmanLimit.CrowdedOnly | mozjpeg/mozjpeg/jchuff.c:1014-1026 | at most 257 words that fill the code space overflow a byte only as 256 of 8 bits, or one of 1 bit and 256 of 9 |
| HuffmanOverflow.FewSymbols | mozjpeg/mozjpeg/jchuff.c:1014-1026 | with at most 254 symbols in use no length is shared by 256 |
| HuffmanOverflow.EqualCounts | mozjpeg/mozjpeg/jchuff.c:1014-1055 | any 255 symbols that occur once each all get 8 bits, so that their count overflows |
| HuffmanTable.GenOptimalTable | mozjpeg/mozjpeg/jchuff.c:940-1075 | for all counts: every counted symbol is listed once, in order of size, with at most 16 bits, and the lengths leave free exactly one word of the longest length, if and only if no size is above 32 and none is shared by 256 symbols; what happens otherwise; as many short words as possible keep their length |
| HuffmanCodes.MakeCodes | mozjpeg/mozjpeg/jchuff.c:293-312 | codes are accepted if and only if they leave code space free, and then each begins its share of it |
| HuffmanBuilders.MakeCTable | mozjpeg/mozjpeg/jchuff.c:248-333 | exactly which counts and symbols are accepted, and that each symbol gets its code and no other symbol one |
| HuffmanBuilders.MakeSerial | mozjpeg/mozjpeg/jdhuff.c:206-225 | maxcode is the last code of each length, valoffset leads from a code to its index |
| HuffmanBuilders.MakeLookup | mozjpeg/mozjpeg/jdhuff.c:227-245 | each of the 256 entries holds the one short code it begins with, or says that there is none |
| HuffmanBuilders.MakeDTable | mozjpeg/mozjpeg/jdhuff.c:145-260 | the decoder's builder accepts the same counts and makes tables that decode these codes |
| HuffmanSymbols.NotAllOnes | mozjpeg/mozjpeg/jchuff.c:304-309 | no code of an accepted table is all ones |
| HuffmanSymbols.PrefixFree | mozjpeg/mozjpeg/jchuff.c:293-312 | no code of an accepted table begins another |
| HuffmanDecoding.PathsAgree | mozjpeg/mozjpeg/jdhuff.h:197-218 | the lookahead table, the walk from 9 bits and the walk from 1 bit agree on every bit string |
| HuffmanSymbols.CodeIsRead | mozjpeg/mozjpeg/jdhuff.c:434-469 | decoding a code followed by any bits gives its symbol and leaves those bits |
| HuffmanSymbols.BuildersPair | mozjpeg/mozjpeg/jdhuff.c:145-260 | tables made from the same BITS and HUFFVAL fit together |
| HuffmanOptimalCodes.OptimalTableAccepted | mozjpeg/mozjpeg/jchuff.c:1014-1071 | the optimal table is accepted by the builders: its code space is 1 - 2^-L for longest length L |
| HuffmanOptimalCodes.CountedHaveCodes | mozjpeg/mozjpeg/jchuff.c:1051-1071 | a symbol has a code if and only if it was counted |
| HuffmanBlocks.ExtendsBack | mozjpeg/mozjpeg/jdhuff.c:482-484 | sign extension undoes what the encoder does to a value's extra bits |
| HuffmanBlocks.AcIsRead | mozjpeg/mozjpeg/jdhuff.c:590-616 | the AC coefficients come back from their symbols and extra bits, whatever follows |
| HuffmanScans.BlockIsRead | mozjpeg/mozjpeg/jdhuff.c:562-616 | a block comes back exactly |
| HuffmanScans.ItemsAreRead | mozjpeg/mozjpeg/jdhuff.c:550-651 | all blocks of a scan come back, DC predictors included, and the bits behind them are left unread |
| MarkedBytes.TestFindsMarks | mozjpeg/mozjpeg/jchuff.c:384-386 | the word test finds a 0xFF byte if and only if there is one |
| BitWriting.BitWriter.FlushWord | mozjpeg/mozjpeg/jchuff.c:382-407 | a full word is written as its eight bytes, stuffed |
| BitWriting.BitWriter.PutBits | mozjpeg/mozjpeg/jchuff.c:425-446 | exactly the bits of the code are appended, stale high bits and flushes notwithstanding |
| BitWriting.BitWriter.FlushBits | mozjpeg/mozjpeg/jchuff.c:496-543 | the destination holds all bits in stuffed bytes, the last one filled up with ones |
| HuffmanEncoder.HuffmanEncoder.EncodeOneBlock | mozjpeg/mozjpeg/jchuff.c:566-662 | the bits of the block's symbols are appended, or the block is refused exactly when a value is out of range |
| HuffmanEncoder.HuffmanEncoder.EncodeMcu | mozjpeg/mozjpeg/jchuff.c:695-759 | the blocks of an MCU are appended to their segment, behind a restart if one is due; it fails exactly when a value is out of range, differences taken from the predictors of the segment |
| HuffmanEncoder.HuffmanEncoder.EmitRestart | mozjpeg/mozjpeg/jchuff.c:669-688 | the segment is padded and flushed, its marker follows unstuffed, and the predictors start from 0 |
| HuffmanEncoder.HuffmanEncoder.FinishPass | mozjpeg/mozjpeg/jchuff.c:763-783 | the destination holds the bits of each segment, padded and stuffed, with the markers 0 to 7 in turn between them |
| HuffmanGather.Gatherer.HtestOneBlock | mozjpeg/mozjpeg/jchuff.c:807-871 | every symbol is counted exactly as often as the block emits it |
| HuffmanGather.Gatherer.GatherMcu | mozjpeg/mozjpeg/jchuff.c:880-908 | the counts are those of all symbols that the output pass emits, over all segments |
| HuffmanOptimized.GatherScan | mozjpeg/mozjpeg/jchuff.c:880-908 | a scan with any restart interval is refused as in the output pass, and otherwise each symbol is counted as often as its segments emit it |
| HuffmanOptimized.ScanInRange | mozjpeg/mozjpeg/jchuff.c:607-655 | the symbols a scan can have: DC at most 11, AC with sizes at most 10 |
| HuffmanOptimized.CountsFit | mozjpeg/mozjpeg/jchuff.c:940-974 | the counts of any scan meet what the table builder silently relies on, as long as they total less than 10^9 |
| BitReading.UnreadSegment | mozjpeg/mozjpeg/jdhuff.c:304-355 | reading a segment yields the bits of the bytes that were stuffed |
| BitReading.BitReader.Fill | mozjpeg/mozjpeg/jdhuff.c:285-382 | refilling changes nothing about what is still to be read; zeros are made up only behind the end, and the data is called insufficient only when more was asked for than there is |
| BitReading.BitReader.GetBits | mozjpeg/mozjpeg/jdhuff.h:120-128 | the next bits of the segment are returned and taken |
| HuffmanDecoder.HuffmanDecoder.HuffDecode | mozjpeg/mozjpeg/jdhuff.h:197-218 | on all paths the next symbol is decoded and exactly its bits are taken, also near the end of the data |
| HuffmanDecoder.HuffmanDecoder.DecodeMcuSlow | mozjpeg/mozjpeg/jdhuff.c:550-651 | blocks, predictors and unread bits are those of the pure decoder, whatever the blocks held before |
| HuffmanDecoder.OverMovesAlike | mozjpeg/mozjpeg/jdhuff.c:550-651 | what the blocks held before has no influence on the predictors and the bits read |
| HuffmanDecoder.OverPrepared | mozjpeg/mozjpeg/jdhuff.c:785-791 | over blocks that are cleared or hold the result already, decoding gives the same result |
| HuffmanDecoder.HuffmanDecoder.ProcessRestart | mozjpeg/mozjpeg/jdhuff.c:509-544 | if the next marker is the one expected, everything is as at the start of a scan behind it, whatever has become of the data in front |
| HuffmanFast.FastReader.GetByte | mozjpeg/mozjpeg/jdhuff.c:389-406 | a byte is loaded without a check, a marker gives its two bytes back and loads zeros |
| HuffmanFast.AgreesUnlessFilled | mozjpeg/mozjpeg/jdhuff.c:389-406 | GET_BYTE and the checked path take the same byte and meet the same markers except, exactly, on fill bytes in front of a stuffed zero |
| HuffmanFast.FilledZero | mozjpeg/mozjpeg/jdhuff.c:313-340 | on 0xFF 0xFF 0x00 the checked path reads a data byte 0xFF where GET_BYTE reports a marker |
| HuffmanFast.FastReader.HuffDecode | mozjpeg/mozjpeg/jdhuff.h:220-241 | the fast macro decodes what the checked one does as long as no marker was hit |
| HuffmanFast.DecodeMcuFast | mozjpeg/mozjpeg/jdhuff.c:661-747 | when it returns true, coefficients, predictors and unread bits are those of the slow path; when it returns false the decoder has not moved, and the blocks hold what the bits that GET_BYTE takes decode to |
| HuffmanDecoder.WrittenTwice | mozjpeg/mozjpeg/jdhuff.c:785-791 | decoding again into blocks that hold the result already gives the same result, so the fallback needs no clearing |
| HuffmanFast.DecodeMcu | mozjpeg/mozjpeg/jdhuff.c:765-806 | an MCU is decoded from behind a restart marker if one is due, or from the bits that come next; predictors and unread bits are as specified for every source, the blocks unless the fast path was given up, and then the coefficients are written over those of the attempt |
| HuffmanTransfer.TransferScan | mozjpeg/mozjpeg/jdhuff.c:509-806 | with tables that cover its symbols a scan in segments of any restart interval is refused if and only if a value is out of range, and otherwise every MCU comes back, markers and both decoding paths included |
| HuffmanOptimized.BuildPair | mozjpeg/mozjpeg/jchuff.c:940-1075 | counts become a fitting pair of tables with a code for exactly the counted symbols, or are refused, exactly when a code has more than 32 bits, 256 symbols have 8 bits each, or a DC symbol is above 15 |
| HuffmanOptimized.TransferOptimized | mozjpeg/mozjpeg/jchuff.c:880-1075 | two-pass coding of any scan with any restart interval gives every MCU back, unless a value is out of range or an optimal code has a word of more than 32 bits |
| Reciprocal.Flss | mozjpeg/mozjpeg/jcdctmgr.c:92-119 | the highest set bit is found |
| Reciprocal.ComputeReciprocal | mozjpeg/mozjpeg/jcdctmgr.c:182-230 | for every word width and divisor the entry divides exactly with rounding, and the reciprocal fits the word |
| Reciprocal.Quantize | mozjpeg/mozjpeg/jcdctmgr.c:609-631 | every coefficient is divided and rounded half away from zero |
| Reciprocal.StartPass | mozjpeg/mozjpeg/jcdctmgr.c:240-290 | all 64 entries are made from the quantization table times 8 |
| TrellisCosts.CandidateIsNear | mozjpeg/mozjpeg/jcdctmgr.c:1120-1141 | no candidate is farther from the coefficient than zero is, whatever the quantizer |
| TrellisChoice.CandidatesSuffice | mozjpeg/mozjpeg/jcdctmgr.c:1133-1141 | for any values up to the rounded quotients there are candidates with the same bits and no larger errors |
| TrellisAc.TryCandidates | mozjpeg/mozjpeg/jcdctmgr.c:1157-1171 | the candidates of one run are compared with the best so far, and the cheapest is kept |
| TrellisAc.SettlePosition | mozjpeg/mozjpeg/jcdctmgr.c:1143-1173 | the accumulated cost of a position is the least over all selections that end there, and its back pointer leads to one |
| TrellisAc.BestEnd | mozjpeg/mozjpeg/jcdctmgr.c:1175-1195 | the last coefficient is chosen so that the whole band is cheapest, end-of-block symbol included |
| TrellisAc.Backtrack | mozjpeg/mozjpeg/jcdctmgr.c:1199-1210 | the coefficients left standing are exactly those on the chosen path |
| TrellisAc.QuantizeBand | mozjpeg/mozjpeg/jcdctmgr.c:1108-1210 | no values of the signs of the sources and of magnitudes up to the rounded quotients, capped at 1023, cost less than those written in place, as long as their symbols have codes |
| TrellisRate.CostIsBits | mozjpeg/mozjpeg/jchuff.c:607-655 | the rate of a selection is the number of bits the encoder's symbols and extra bits take |
| TrellisRate.QuantizeBlock | mozjpeg/mozjpeg/jcdctmgr.c:1108-1210 | among all such values the block left behind has the least sum of encoded bits and weighted error |
| TrellisDc.BestBefore | mozjpeg/mozjpeg/jcdctmgr.c:1087-1104 | the cheapest predecessor is found, the first one in case of ties |
| TrellisDc.NextColumn | mozjpeg/mozjpeg/jcdctmgr.c:1041-1106 | every candidate of the next block gets the least cost over all choices for the blocks before it |
| TrellisDc.Candidates | mozjpeg/mozjpeg/jcdctmgr.c:918-923 | the number of candidates m is the least odd one with (m - 1) times the quantizer above 60, or 9 if that is less |
| TrellisDc.CandidateReaches | mozjpeg/mozjpeg/jcdctmgr.c:1035-1053 | every candidate is within half a step for each candidate of the source, sign included, or at the limit of the range |
| TrellisDc.ReachIsCandidate | mozjpeg/mozjpeg/jcdctmgr.c:1035-1053 | every value that near is among the candidates |
| TrellisDc.ErrorIsMixed | mozjpeg/mozjpeg/jcdctmgr.c:1055-1071 | with a row of blocks above, the error is a mean of that of the value and that of the vertical gradient, weighted with trellis_delta_dc_weight |
| TrellisRate.DcRateIsBits | mozjpeg/mozjpeg/jcdctmgr.c:1074-1106 | the rate of a DC difference is the number of bits the encoder spends on it |
| TrellisDc.QuantizeDc | mozjpeg/mozjpeg/jcdctmgr.c:1034-1106 | the values stored are within half a step for each candidate of their sources, and no values that near cost less, bits of the differences and errors of the values added up |
| RefinementCoding.SkipReads | mozjpeg/mozjpeg/jcphuff.c:879-932 | the decoder passes zeros and takes correction bits exactly as the encoder counted and buffered them |
| RefinementCoding.RunReads | mozjpeg/mozjpeg/jcphuff.c:433-454 | a run of 1 to 0x7FFF blocks is read back from its symbol and extra bits |
| RefinementCoding.SentLonger | mozjpeg/mozjpeg/jcphuff.c:998-1011 | a block without new coefficients may join the pending run, its correction bits behind the others |
| RefinementCoding.SentBlock | mozjpeg/mozjpeg/jcphuff.c:879-932 | a block with new coefficients decodes right once the pending run has been written in front of it |
| ProgressiveBits.BitEmitter.EmitBits | mozjpeg/mozjpeg/jcphuff.c:345-381 | exactly the low bits of the code are appended, stale bits above the field and stuffing notwithstanding |
| ProgressiveBits.BitEmitter.FlushBits | mozjpeg/mozjpeg/jcphuff.c:384-390 | the destination holds all bits in stuffed bytes, the last one filled up with ones |
| RefinementEncoder.CountZeroes | mozjpeg/mozjpeg/jcphuff.c:880-884 | shifting takes the word to its lowest set bit and counts the zeros below it |
| RefinementEncoder.Prepare | mozjpeg/mozjpeg/jcphuff.c:809-871 | magnitudes, the two masks and the position of the last new coefficient |
| RefinementEncoder.AtSixteenthZero | mozjpeg/mozjpeg/jcphuff.c:886-897 | when a ZRL symbol is due, all buffered correction bits belong in front of its last zero |
| RefinementEncoder.Encoder.EmitEobrun | mozjpeg/mozjpeg/jcphuff.c:433-454 | the pending run and its correction bits are written, and nothing is pending any more |
| RefinementEncoder.Encoder.EmitZrls | mozjpeg/mozjpeg/jcphuff.c:886-897 | ZRL symbols bring the decoder behind their zeros, so that at most 15 are left to count |
| RefinementEncoder.Encoder.EmitNew | mozjpeg/mozjpeg/jcphuff.c:914-932 | symbol, sign and correction bits bring the decoder behind the new coefficient |
| RefinementEncoder.Encoder.EncodeMcu | mozjpeg/mozjpeg/jcphuff.c:935-1028 | the correction buffer and the run never overflow, correction bits are pending only with a run, and what is written and pending stands for one block more |
| RefinementEncoder.Encoder.FinishPass | mozjpeg/mozjpeg/jcphuff.c:1036-1049 | all blocks decode from the bytes, and only padding is left |
| RefinementEncoder.EncodeScan | mozjpeg/mozjpeg/jcphuff.c:935-1049 | any sequence of blocks comes out refined by one bit at the decoder; the scan is refused if and only if some symbol that it emits has no code |
| RefinementSymbols.CourseNew | mozjpeg/mozjpeg/jcphuff.c:899-932 | a new coefficient asks for the pending run, if there is one, and for its own symbol |
| RefinementSymbols.BlocksSymbolsGrow | mozjpeg/mozjpeg/jcphuff.c:935-1028 | the symbols of a scan are those of its first blocks and then those of the others |
| RefinementSymbols.RunIsHeld | mozjpeg/mozjpeg/jcphuff.c:1000-1010 | behind any blocks, a run of blocks without new coefficients is not written before it is full or its correction bits leave no room for those of a block |
| RefinementSymbols.QuietScan | mozjpeg/mozjpeg/jcphuff.c:1000-1010 | a scan without new coefficients is one single run |
| TokenLists.TokenList.constructor | libprisma/Sources/TokenList.cpp:3-9 | one text node between the links of the sentinel, whose back link is not set |
| TokenLists.TokenList.AddAfter | libprisma/Sources/TokenList.cpp:24-46 | the new node follows the given one; the list stays circular and its length right, and the back link of the sentinel changes exactly when the node is the last |
| TokenLists.TokenList.RemoveNext | libprisma/Sources/TokenList.cpp:50-60 | the node behind the given one is unlinked; the back link of the sentinel changes exactly when it was the last |
| TokenLists.TokenList.RemoveRange | libprisma/Sources/TokenList.cpp:48-61 | exactly count nodes are unlinked, neither a null link nor the sentinel is met, and the back link of the sentinel changes exactly when the last node goes |
| TokenLists.TokenList.Contents | libprisma/Sources/TokenList.h:59-80 | the walk from begin to end meets every token once, in order |
| Grammars.TiledConcat | libprisma/Sources/SyntaxHighlighter.cpp:35-199 | tilings of two neighbouring ranges make one of both, and the other way round |
| Grammars.CompleteFlattens | libprisma/Sources/SyntaxHighlighter.cpp:27-33 | a finished tokenization spells the text, and the length of every token at every depth is right |
| SyntaxHighlighter.SpliceComplete | libprisma/Sources/SyntaxHighlighter.cpp:135-174 | replacing whole nodes by the text before a match, the token and the text after it keeps a tokenization complete |
| SyntaxHighlighter.Locate | libprisma/Sources/SyntaxHighlighter.cpp:94-103 | the node with the start of the match is found before the sentinel is reached |
| SyntaxHighlighter.CountAffected | libprisma/Sources/SyntaxHighlighter.cpp:111-119 | the nodes removed cover the match and end in front of a syntax token or the sentinel |
| SyntaxHighlighter.Replace | libprisma/Sources/SyntaxHighlighter.cpp:135-174 | the list holds a token for exactly the range matched, and the nodes in front are untouched |
| SyntaxHighlighter.MatchNode | libprisma/Sources/SyntaxHighlighter.cpp:74-193 | what one turn does for each answer of the search, how far its match affects the list, and that a match over several nodes is followed by a rematch from the new token on; every turn gets ahead in the text or makes the list longer |
| SyntaxHighlighter.TurnWalks | libprisma/Sources/SyntaxHighlighter.cpp:55-92 | a turn passes over the text node, or ends the walk of a greedy pattern that finds nothing more in the whole text |
| SyntaxHighlighter.ApplyPattern | libprisma/Sources/SyntaxHighlighter.cpp:51-194 | the walk ends for every search function, greedy or not: behind the last token, at the reach of a rematch, or, for a greedy pattern, at the text from which it finds nothing more; every text it passes over has a match of the pattern behind it, or is not matched by it |
| SyntaxHighlighter.MatchAgain | libprisma/Sources/SyntaxHighlighter.cpp:176-193 | a rematch keeps the token it was for, applies exactly the patterns in front of the place where it ends, and the last of them has walked as far as the reach |
| SyntaxHighlighter.MatchGrammar | libprisma/Sources/SyntaxHighlighter.cpp:35-199 | the list stays well formed and a tokenization of the text; unless it got longer than the text, all patterns before the stopping point are applied if and only if no earlier token has the name and a pattern of the number that end a rematch, and the last one applied has walked over the list |
| SyntaxHighlighter.RepeatedName | libprisma/Sources/SyntaxHighlighter.cpp:42-45 | with two tokens of one name a rematch for the second leaves the first one out |
| SyntaxHighlighter.Tokenize | libprisma/Sources/SyntaxHighlighter.cpp:27-33 | at every depth, each token stands for a range that a pattern of its name and grammar matched there, with the tokenization by its inner grammar as its children; a text stays whole if and only if nothing matches it, and unless there are more tokens than characters the last pattern, greedy or not, has walked over the list to where its walk ends |
| SyntaxHighlighter.Highlight | libprisma/Sources/SyntaxHighlighter.cpp:11-20 | the tokens of any text spell it; a known language gives the tokenization by its grammar, an unknown one a single text token |

## Left out

- A restart marker that is not the one expected: jpeg_resync_to_restart, to which read_restart_marker hands over, is a callback; the model reports a failure.
- McuEncoder.EntropyEncoder.EmitRestart: the statistics of tables that the scan does not use are reset as well, which nothing can see.
- Suspension: the destination never fills up and the source never runs dry in the middle of an MCU.
- trellis_passes: the arithmetic encoder is modelled for the output pass, where emit_byte writes.
- The natural order of coefficients: blocks are kept in zigzag order throughout.
- The walk over an image: a scan visits any sequence of blocks; in the arithmetic coder predictors and contexts are kept by component of the frame, and the conditioning tables are those of the component.
- dc_needed, ac_needed and MCU_data of NULL in jdhuff.c: every component is stored.
- SIMD paths, 32-bit word variants, the floating-point DCT.
- HuffmanTable.GenOptimalTable: the counts total at most 10^9, because the search starts from that number; a search that runs off the array is a failure value.
- Reciprocal.Quantize: coefficients are integers, the final conversion to JCOEF is not modelled.
- TrellisAc.QuantizeBand: the end-of-block symbol counts as free if the table has no code for it; selections cost less than the sentinel 1e38, because the program compares with it; float is replaced by exact numbers.
- TrellisDc.QuantizeDc: the columns of the table are sequences, only the row of coefficients is an array.
- trellis_eob_opt, trellis_q_opt, quantize_trellis_arith and the computation of lambda: the weights of the error are parameters.
- RefinementEncoder.Encoder: the statistics pass of jcphuff.c (gather_statistics) and its first and DC passes are not modelled.
- SyntaxHighlighter.Tokenize: the nesting of inner grammars is cut off by fuel, because grammars may contain themselves; regular expressions are an arbitrary function, and answers outside the text count as none.
- SyntaxHighlighter.Expand: the list of children is moved into its token as the sequence of its tokens.
- SyntaxHighlighter.MatchGrammar: the reach of a rematch is returned, not written through a pointer; the split of the loop bodies into methods is the model's own.
- Freeing of nodes and the loader of languages in libprisma.
- Marker writing, the other markers of a file, buffering, the walk over the MCUs of an image and colour conversion.
- ScanMaster.Master: it starts with the first pass of scan 0; sizes are parameters and costs do not wrap around; the trellis passes in front are a number, and the files of the buffers are not modelled.
- jpeg_simple_progression and scripts given by an application: only those of the search are generated.
- The Go, Swift and database parts of the repository.
