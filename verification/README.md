# Entropy coding and multi-scan control of the bundled JPEG library, in Dafny

`jpeg-8b` holds both halves of a JPEG codec: every coder in it has a decoder in the same directory. This project
models the entropy-coding and multi-scan heart of the library, with the controllers around it, and proves that the halves
invert each other, over all inputs. One small module is about `cgic205` instead.

* **Arithmetic coding** (sections D.1, D.2 and F.1.4 of ITU-T T.81). `ArithInterval` is an exact-integer interval
  coder with unbounded registers. `ArithEncoder` is the encoder of `jcarith.c`, with its carry-deferring output
  register (`buffer`, `sc` stacked 0xFF bytes, `zc` pending zeros) and its termination; `ArithDecoder` is the decoder of
  `jdarith.c`, which renormalizes lazily. Each is a class proved to follow the ideal coder step by step, and
  `ArithRoundTrip` composes them; `ArithShortest` shows that the encoder ends with as few bytes as it can.
  `ArithModel` gives the decisions that code a block as lists, and `ArithMeaning` says what each of them means;
  `ArithEncodeMcu` and `ArithDecodeMcu` are the statistical routines proved against those lists, `ArithBlock` and
  `ArithScan` carry the result to blocks, MCUs, restart intervals and whole scans, sequential and progressive.
* **Scan scripts and passes.** `ScanScript` is `validate_script`, `SimpleProgression` the recommended progressive script,
  `PassMachine` the pass controller of `jcmaster.c` together with the three ways it is driven.
* **Telescoping.** `Telescope` and `Transmission` join the two: an image coded and decoded scan by scan over any script the
  check accepts arrives with each coefficient exactly as far as its last scan sent it.
* **Huffman tables.** `HuffTable` builds canonical codes and the coder's derived table, `HuffLookup` the decoder's
  bit-serial and lookahead tables, `HuffMerge` and `HuffOptimal` the table optimizer of section K.2 of ITU-T T.81. `HuffOrder` shows that it gives the
  larger count no longer a code, `HuffBest` that no code takes fewer bits.
* **Huffman coding** (sections F.1.2, F.2.2 and G.1.2 of ITU-T T.81). A scan is a list of tokens, symbols and raw bits
  (`HuffTokens`). `HuffWriter` packs them into stuffed bytes, or only counts them; `HuffReader` takes them off a source whose
  bytes may not all have arrived. `HuffEobRun` reconciles the coder, which sends a run of blocks after its blocks and their
  correction bits, with the decoder, which meets the run first. `HuffValues`, `HuffDc`, `HuffAcFirst`, `HuffAcRefine`,
  `HuffAcRefinePass` and `HuffAcRefineDecode` are the block routines of both sides, `HuffLimited` those for components that are not wanted whole,
  `HuffBlock` and `HuffScan` the coder's scans, `HuffMcu`, `HuffDecode` and `HuffDecodeScan` the decoder's. `HuffCursor`,
  `HuffWrites` and `HuffWhole` give the decoder as a function of all its bytes; `HuffDecode` proves that a decoder that was
  suspended anywhere and called again ends with that function's result, saved state and coefficients, whatever the input.
  `HuffMeaning` says what values, runs and correction bits their tokens stand for.
  `HuffRetry` says what that comes to for blocks the coder coded.
  `HuffSymbols` and `HuffOptimize` make tables from a statistics pass and show that they cover the output pass;
  `HuffTransmission` carries whole images over any accepted script.
* **Geometry and controllers.** `Geometry` divides an image into blocks and MCUs, `McuOrder` lists the blocks of a scan and `ScanOrder`
  shows that they are in the order of the standard.
  `CoefOnePass` and `CoefController` (the two ways of `jccoefct.c`), `CoefTranscode` (`jctrans.c`) and `CoefDecode`
  (`jdcoefct.c`) are proved against that list, wherever the entropy coder makes them stop. `ScanPlans` gives the
  list to the scan theorems, and `WholeImage` says the end result of it all: blocks in, the same blocks out.
* **Context rows.** `PointerLists`, `ContextViews`, `ContextMain` and `MainController` are the decompressor's main controller with
  its two pointer lists, `PrepContext` the compressor's ring of three row groups. `Upsampling` is the merged upsampler
  against the separate one, `Colour` what colours they give.
* **Marker segments.** `MarkerBytes`, `HuffSegments`, `QuantSegments`, `ArithSegments` and `FrameSegments`: tables and headers
  written by `jcmarker.c` and read back by `jdmarker.c`, from a source of which only a part may have arrived;
  `SegmentLayout` says where in a segment each field is.
* **Multipart boundaries.** `BoundaryScan` is the search of `cgic.c` for the next boundary (section 5.1.1 of RFC 2046) over its stream with
  a ring for bytes put back.

`Scans` holds what both entropy coders share: scan parameters, the blocks a scan visits, the effect of decoding them.
`Prediction` says for both what DC values are coded against.
`Controllers` holds what the coefficient controllers share. `Numbers`, `BitStrings`, `AritTable` and `ArithCode` hold powers of
two, bit strings, the probability table and byte strings.

Conventions. An object that the C code updates is a class with the same fields; C arrays that are filled in place are
Dafny arrays or sequences that are reassigned; loops are loops. `ERREXIT` is a failure result: `Verdict` for the script check, `ok`,
`status` or `Failed` otherwise. The byte destination is a growing sequence. The arithmetic decoder's source is a sequence that may
end early; the Huffman decoder's is a sequence of which a prefix has arrived, with an arbitrary schedule for the rest. Where a
collaborator may run out of room or of data, its answers to the coming calls are a list, and at last it has
what is asked for. `INT32` registers are unbounded integers kept in range by their invariants; an 8-bit or 16-bit
cell that the code relies on wrapping, or that could wrap, is written with its modulus. `natural_order` is any permutation of
0..63 that fixes 0.

Progress through a list is stated with ghost parameters: a decoding method takes the decisions or tokens it is in step with, and
its contract speaks of them only if the decoder really is in step, so the same method is also defined on any other input.
What the Huffman decoder does on any input is said with functions of the bytes and the state it starts from, named after what they
read: `DiffFrom`, `BandFrom`, `RefineFrom`, `CallFrom`.

Where the code decides:

* The arithmetic `decode_mcu` follows DC differences of magnitude up to 2^15 and no more. The scan theorems say that decoding
  succeeds if and only if every DC difference of the scan is within that bound; `ArithScan.DifferenceTooLarge` is an
  image the coder takes and the decoder does not.
* `jpeg_simple_progression` is called for any component count, and its script is legal exactly when there is at least one.
* The Huffman coder rejects AC magnitudes of more than 10 bits and DC differences of more than 11; its scan theorems
  say that this and a missing code are its only failures. `decode_mcu_AC_refine` may find coefficients that an abandoned attempt has
  already corrected; its theorem starts from such blocks, not only from fresh ones.
* The comment in `jdmainct.c` promises at least one row group of samples above and below every row group. The bottom pointers are
  set after the row group just before the last iMCU row has been processed, so that one sees rows below the image if the
  last iMCU row has less than one row group of real rows. `ContextMain.WrongRow` is an image in which that happens, `ContextMain.AllRowsTrue`
  says exactly when the promise is kept, and `ContextMain.NearRowsTrue` that the nearest row on either side, all that the upsamplers use, is always right.
* `afterNextBoundary` reads two bytes behind the boundary and keeps them only if the first is a dash; other bytes than a newline are lost.
  `BoundaryScan.LosesOthers` has two inputs on which they are, `BoundaryScan.LosesNothing` says exactly when nothing else is.
  Its theorem holds for up to two bytes put back at entry, which is what the parser itself puts back.

## Model

| member | source | states |
|---|---|---|
| AritTable.JpegAritab | jpeg-8b/jaricom.c:29-152 | the packed entry unpacks to the row's Qe, next states and switch flag, all of them legal: every reachable state stays in the table |
| ArithInterval.Exchange | jpeg-8b/jcarith.c:235-259 | the more probable symbol has the larger part of the interval, the lower one if both are equal, and the upper part is the one of size Qe |
| ArithInterval.AdaptsWhenDoubled | jpeg-8b/jcarith.c:246-259 | the estimate changes just when the interval has to be doubled, and the less probable symbol always makes it so |
| ArithInterval.NextStates | jpeg-8b/jcarith.c:228-258 | the next states are the table's, and only a less probable symbol in a row with the switch changes which symbol that is |
| ArithInterval.Estimates | jpeg-8b/jaricom.c:33-152 | a more probable symbol never raises the estimate for the other, and that one never lowers it, unless the two change roles |
| ArithInterval.StepsDisjoint | jpeg-8b/jcarith.c:234-300 | a code string lies in the interval of at most one of the two next steps |
| ArithInterval.HoldsRun | jpeg-8b/jcarith.c:218-312 | a code string in the interval after any further decisions is in the interval before them |
| ArithInterval.Decodable | jpeg-8b/jdarith.c:140-182 | the bit whose part holds the code string is the bit that was coded, and what follows is still decodable |
| ArithCode.ValCarry | jpeg-8b/jcarith.c:266-283 | a carry through stacked 0xFF bytes turns them into zeros and bumps the byte before: the value grows by exactly one |
| ArithCode.UnstuffStuff | jpeg-8b/jdarith.c:118-139 | unstuffing in front of any marker gives back the code bytes and leaves the source just after the marker |
| ArithCode.NoMarkerInside | jpeg-8b/jcarith.c:262-301 | behind every 0xFF that is sent there is a zero: nothing inside a segment looks like a marker |
| ArithEncoder.CarryStops | jpeg-8b/jcarith.c:264-274 | a carry only happens with a buffered byte to take it, and the byte stored after it is below 0x121 mod 0x100, never 0xFF |
| ArithEncoder.Encoder.PutByte | jpeg-8b/jcarith.c:262-301 | byte output with carry, stacking and pending zeros keeps the registers denoting the low end of the interval |
| ArithEncoder.Encoder.Renormalize | jpeg-8b/jcarith.c:255-310 | the renormalization loop takes the interval to the ideal renormalized one, 0x8000 <= a <= 0x10000 |
| ArithEncoder.Encoder.Encode | jpeg-8b/jcarith.c:218-312 | one call of arith_encode is one step of the ideal coder: interval and statistics byte |
| ArithEncoder.Encoder.FinishPass | jpeg-8b/jcarith.c:132-192 | the bytes sent are the stuffing of a code string inside the final interval, and no code string inside it has fewer bytes; it does not end in a zero byte |
| ArithShortest.RoundestIs | jpeg-8b/jcarith.c:140-146 | the number that is chosen ends in as many zero bits as any of the interval |
| ArithShortest.Shortest | jpeg-8b/jcarith.c:138-192 | without its trailing zero bytes it has no more bytes than any other code string in the interval |
| ArithEncoder.FinalHolds | jpeg-8b/jcarith.c:138-192 | zeros dropped at the end are the zeros the decoder supplies: the truncated string still lies in the interval |
| ArithEncoder.Encoder.EmitRestart | jpeg-8b/jcarith.c:318-355 | the segment is finished, the marker with its number follows, and all coder state is as at the start of a scan |
| ArithDecoder.Decoder.GetData | jpeg-8b/jdarith.c:113-139 | the next code byte, with stuffing undone, zero once a marker has been met, and the marker remembered |
| ArithDecoder.Decoder.Renormalize | jpeg-8b/jdarith.c:110-139 | the lazy renormalization reaches the ideal coder's renormalized interval, and c is the code string's offset in it |
| ArithDecoder.Decoder.Decode | jpeg-8b/jdarith.c:105-183 | one call of arith_decode is one step of the ideal coder with the bit whose part holds the code string |
| ArithDecoder.Decoder.ReadBit | jpeg-8b/jdarith.c:105-183 | a decoder in step with a list of decisions returns the next one's bit and stays in step |
| ArithDecoder.Decoder.Synchronized | jpeg-8b/jdarith.c:630-735 | at the start of a segment the encoder wrote, the decoder is in step with the decisions it coded, in front of any marker |
| ArithDecoder.Decoder.ProcessRestart | jpeg-8b/jdarith.c:189-224 | after a segment the decoder takes the restart marker it expects and is back at its starting state |
| ArithRoundTrip.EncodeDecisions | jpeg-8b/jcarith.c:132-312 | the bytes are a segment for the decisions, the statistics those of the ideal coder |
| ArithRoundTrip.DecodeDecisions | jpeg-8b/jdarith.c:105-183 | the bits of any coded decision list come back, with the same final statistics, after any number of them |
| ArithRoundTrip.DecodeOne | jpeg-8b/jdarith.c:105-183 | each single decoded decision takes the statistics through the step the encoder took |
| ArithRoundTrip.RoundTrip | jpeg-8b/jcarith.c:132-312 | coding any decisions and decoding them in front of any marker returns the same bits and equal statistics |
| ArithModel.DcWithin | jpeg-8b/jcarith.c:711-757 | DC coding of a difference of magnitude up to 2^15 uses bins 0 to 48 of its table |
| ArithModel.AcWithin | jpeg-8b/jcarith.c:759-820 | AC coding of values of magnitude up to 2^15 uses bins 0 to 244 of its table and the fixed bin |
| ArithModel.PriorStep | jpeg-8b/jdarith.c:461-489 | a coefficient before and after its refinement bit differ by exactly that bit, with the sign kept |
| ArithMeaning.DcSays | jpeg-8b/jcarith.c:711-757 | a difference is told by a bit that it is not zero, its sign, and its magnitude less one: the number of its bits in unary, then those below the leading one, in the bins of table F.4 |
| ArithMeaning.ContextMeans | jpeg-8b/jcarith.c:756-759 | said of the difference itself: up to half of 2^L it counts as zero, above 2^U as large, between them as small, and its sign is told apart |
| ArithMeaning.AcMagnitudeSays | jpeg-8b/jcarith.c:518-540 | a magnitude less one is coded likewise in the bins of table F.5, the first two steps in the same bin |
| ArithMeaning.EndSays | jpeg-8b/jcarith.c:494-545 | the end-of-block decision is one just if nothing but zeros is left of the band |
| ArithMeaning.CoefSays | jpeg-8b/jcarith.c:498-524 | whether a coefficient is zero, its sign in the fixed bin, its magnitude from bin 189 up to Kx and from 217 above |
| ArithMeaning.RefineEndSays | jpeg-8b/jcarith.c:639-677 | a refinement asks for the end of the band only behind the last coefficient of the scan before |
| ArithMeaning.RefineSays | jpeg-8b/jcarith.c:644-666 | a coefficient known before gets its next bit, a new one its sign |
| ArithMeaning.AreasApart | jpeg-8b/jdarith.c:630-735 | no two statistics areas share a bin |
| ArithEncodeMcu.EncodeDc | jpeg-8b/jcarith.c:711-757 | the DC routine codes exactly the decision list of the difference and leaves the matching conditioning context |
| ArithEncodeMcu.FindEob | jpeg-8b/jcarith.c:474-491 | the index found is the last coefficient that is nonzero after the point transform |
| ArithEncodeMcu.EncodeAc | jpeg-8b/jcarith.c:493-545 | the AC routine codes exactly the decision list of the band |
| ArithEncodeMcu.EncodeAcRefine | jpeg-8b/jcarith.c:589-679 | the refinement routine codes exactly the refinement list of the band |
| ArithDecodeMcu.DecodeDc | jpeg-8b/jdarith.c:527-567 | in step with a DC difference the routine restores it and the context, and fails just when its magnitude is above 2^15 |
| ArithDecodeMcu.DecodeAc | jpeg-8b/jdarith.c:341-388 | in step with a band the routine places exactly its coefficients, shifted back, and nothing else |
| ArithDecodeMcu.DecodeAcRefine | jpeg-8b/jdarith.c:430-496 | in step with a refinement the routine adds one bit to old coefficients and places the new ones |
| ArithDecodeMcu.MsbLeads | jpeg-8b/jcarith.c:726-757 | the category coded is the place of the leading bit: it is at most the value and more than half of it |
| ArithBlock.EncodeBlock | jpeg-8b/jcarith.c:361-824 | any of the five MCU routines codes exactly its block's decisions and moves the DC state as specified |
| ArithBlock.DecodeBlock | jpeg-8b/jdarith.c:241-624 | any of the five routines, in step, has exactly the block's effect on the coefficient area; it fails just on a DC difference above 2^15 |
| ArithBlock.EobxAgrees | jpeg-8b/jcarith.c:617-631 | the end index found with the shift of the previous scan is the one seen at the current shift |
| ArithScan.EncodeScan | jpeg-8b/jcarith.c:318-907 | a scan with restarts is its segments' codings joined by restart markers numbered modulo 8 |
| Prediction.ArithSegment | jpeg-8b/jcarith.c:414-435 | each difference is to the last block of the same component in the segment, zero if there is none, in the context its difference before has left |
| Prediction.ArithBlockSays | jpeg-8b/jcarith.c:361-824 | a block's first decision tells whether its DC value differs from the predicted one, in the bin of its context; the end-of-block decision of a sequential block comes next; a refinement is the next lower bit |
| ArithScan.DecodeScan | jpeg-8b/jdarith.c:189-735 | reading a coded scan succeeds if and only if every DC difference fits, and then has exactly the effect of the coded blocks |
| ArithScan.DifferenceTooLarge | jpeg-8b/jdarith.c:536-547 | two blocks whose DC values are 0x8001 apart, which the coder takes, do not fit: the decoder gives up on them |
| Scans.EffectLocal | jpeg-8b/jdarith.c:241-624 | a block's decoding changes nothing outside the block |
| Scans.ReadyAfter | jpeg-8b/jdarith.c:430-496 | decoding some blocks leaves every other block as its refinement needs it |
| ScanScript.ValidateScript | jpeg-8b/jcmaster.c:337-469 | accepts exactly the legal progressive and sequential scripts, and a rejection names the first scan that is not legal |
| ScanScript.CheckProgScan | jpeg-8b/jcmaster.c:406-441 | accepts a progressive scan just when it carries all its components on, and then records the new bit positions of exactly those |
| ScanScript.CheckSeqScan | jpeg-8b/jcmaster.c:443-453 | accepts a sequential scan just when it is full-range and sends no component twice |
| SimpleProgression.ScriptSpace.SimpleProgression | jpeg-8b/jcparam.c:558-630 | fills exactly the scans there was room computed for, reusing space that is large enough |
| SimpleProgression.ScriptLegal | jpeg-8b/jcparam.c:600-630 | the script is progressive, accepted by the script check if and only if there is a component, and ends with every coefficient at bit 0 |
| SimpleProgression.YccOrder | jpeg-8b/jcparam.c:600-618 | for YCC the DC coefficients come first and the low luminance ones next; the last bit of luminance comes last, after those of the colours |
| SimpleProgression.FillDcScans | jpeg-8b/jcparam.c:530-554 | one interleaved DC scan for up to four components, one scan each for more, appended to what was there |
| PassMachine.Master.PrepareForPass | jpeg-8b/jcmaster.c:644-717 | sets up the pass for the right scan, writes headers when due, and skips statistics for DC refinement scans |
| PassMachine.Master.FinishPass | jpeg-8b/jcmaster.c:746-779 | the state goes to the next pass of the run, and the last pass is known as such |
| PassMachine.Master.FinishCompress | jpeg-8b/jcapimin.c:154-189 | terminates with every scan written in order, passes counted exactly, and fails only on too few rows |
| PassMachine.Compress | jpeg-8b/jcapistd.c:37-161 | a full compression produces exactly the specified sequence of headers and passes |
| PassMachine.Transcode | jpeg-8b/jctrans.c:38-53 | a transcoding run does, without a pass over samples |
| PassMachine.RunWrites | jpeg-8b/jcmaster.c:644-837 | a run writes one frame header, then each scan once in script order; statistics are gathered for exactly the scans that use tables |
| PassMachine.RunCopies | jpeg-8b/jcmaster.c:661-700 | no pass reads the coefficient copy before a pass has made it |
| PassMachine.FirstScanFresh | jpeg-8b/jcmaster.c:406-441 | a legal script never starts with a refinement, as the controller relies on |
| Telescope.BlockStep | jpeg-8b/jdarith.c:241-624 | decoding a scan takes a block from one stage of the script to the next |
| Telescope.DcRefined | jpeg-8b/jdarith.c:397-424 | the refinement bit takes a DC coefficient from the floor at bit Al+1 to the floor at bit Al, negative values included |
| Telescope.AcPrior | jpeg-8b/jcarith.c:493-503 | what an AC refinement expects is the magnitude shifted by one bit more, sign kept |
| Telescope.ScanStep | jpeg-8b/jcmaster.c:406-441 | a scan that follows on takes the whole coefficient area from one stage to the next |
| Telescope.LegalCarries | jpeg-8b/jcmaster.c:387-453 | every scan of an accepted script, progressive or sequential, follows on from those before it |
| Telescope.SmallFits | jpeg-8b/jdarith.c:527-567 | coefficients of up to 15 bits never make a DC difference the decoder cannot follow |
| Transmission.EncodeImage | jpeg-8b/jcarith.c:318-907 | each scan of the script is coded for itself |
| Transmission.DecodeImage | jpeg-8b/jdarith.c:189-735 | over any accepted script the coefficients come back exactly as far as their last scan sent them; it stops exactly at a DC difference above 2^15 |
| Transmission.Transmit | jpeg-8b/jcmaster.c:337-469 | coding and decoding together always succeed for 15-bit coefficients, and a script that sends every bit loses nothing |
| Transmission.SimpleProgressionComplete | jpeg-8b/jcparam.c:600-630 | the recommended script sends every bit of every coefficient, for any component count: it is lossless |
| Transmission.SequentialComplete | jpeg-8b/jcmaster.c:443-466 | so does every accepted sequential script |
| HuffTable.MakeCDerivedTbl | jpeg-8b/jchuff.c:160-245 | accepts exactly the tables with a legal count list and distinct symbols in range, and enters each symbol's canonical code and size |
| HuffTable.CodesOrdered | jpeg-8b/jchuff.c:206-226 | canonical codes are in order when cut to a common length |
| HuffTable.PrefixFree | jpeg-8b/jchuff.c:206-226 | no code is a prefix of another |
| HuffTable.CodeFits | jpeg-8b/jchuff.c:216-223 | a code fits its length and is never all ones |
| BitStrings.BitAt | jpeg-8b/jchuff.c:318-340 | bits go out with the highest one first |
| HuffTable.FigC2 | jpeg-8b/jchuff.c:206-226 | generates the canonical codes, and rejects exactly the count lists that overfill a length |
| HuffTable.DerivedCodes | jpeg-8b/jchuff.c:228-245 | a symbol of the table has a code of 1 to 16 bits, any other has size 0 |
| HuffMeaning.FirstCode | jpeg-8b/jchuff.c:206-226 | the first code is all zeros |
| HuffMeaning.NextCode | jpeg-8b/jchuff.c:206-226 | each next code is one more, moved to the left by as many bits as it is longer |
| HuffLookup.MakeDDerivedTbl | jpeg-8b/jdhuff.c:322-440 | builds serial and lookahead tables that agree with the canonical code, and accepts exactly the legal count lists |
| HuffLookup.ScanFinds | jpeg-8b/jdhuff.c:591-627 | bit-serial decoding inverts the code, entered at any length up to the code's own |
| HuffLookup.LookaheadAgrees | jpeg-8b/jdhuff.c:168-188 | on every bit string the 8-bit lookahead, the search from length 1 and the search from length 9 agree |
| HuffLookup.Lookahead | jpeg-8b/jdhuff.c:396-421 | every 8-bit string gets the symbol and length of the short code it starts with, or none |
| HuffLookup.CoderImpliesDecoder | jpeg-8b/jdhuff.c:423-440 | a table the coder accepts, the decoder accepts |
| HuffMerge.FindSmallest | jpeg-8b/jchuff.c:1281-1304 | finds the smallest count up to the sentinel, the larger symbol on ties, or that there is none |
| HuffMerge.Walk | jpeg-8b/jchuff.c:1314-1328 | following the links lengthens exactly the symbols of the branch, once each |
| HuffMerge.Merge | jpeg-8b/jchuff.c:1310-1328 | merging keeps the linked branches a partition of the counted symbols, each with Kraft sum 1, and the weight bounds |
| HuffMerge.HuffmanSizes | jpeg-8b/jchuff.c:1276-1329 | every counted symbol gets a length, the lengths' Kraft sum is exactly 1, a symbol counted more often has no longer a code, and no code takes fewer bits in total |
| HuffOrder.TrackedKept | jpeg-8b/jchuff.c:1310-1328 | a merge keeps every symbol ahead of those that were counted less: the weights of its branches, level by level, are at least theirs |
| HuffOrder.TrackedOrdered | jpeg-8b/jchuff.c:1276-1329 | so that of two symbols the one counted more often, or as often with the smaller number, has no longer a code |
| HuffBest.OneLess | jpeg-8b/jchuff.c:1310-1328 | from any code there is one for the merged symbols that takes less, by a bit for each of the two lightest |
| HuffBest.ThriftyCheapest | jpeg-8b/jchuff.c:1276-1329 | Huffman's procedure is best: no lengths of a prefix code for the counted symbols take fewer bits in total |
| HuffOptimal.CountLengths | jpeg-8b/jchuff.c:1331-1342 | the 8-bit counters count the lengths exactly, failing just on a length above 32 |
| HuffOptimal.PrefixExists | jpeg-8b/jchuff.c:1356-1359 | a code longer than 16 bits leaves a shorter one to split: the search for j never runs off the table |
| HuffOptimal.LimitLengths | jpeg-8b/jchuff.c:1355-1365 | terminates with no length above 16, the same number of symbols and the same Kraft sum |
| HuffOptimal.ListSymbols | jpeg-8b/jchuff.c:1376-1385 | lists exactly the real symbols that have a length, once each, in order of length and number |
| HuffOptimal.GenOptimalTable | jpeg-8b/jchuff.c:1255-1389 | the table lists exactly the counted symbols and its code is legal; only a total of Fibonacci number 35 or more can make it fail |
| HuffOptimal.OptimalOrder | jpeg-8b/jchuff.c:1331-1389 | in the derived table a symbol counted more often has no longer a code, and every length is Huffman's, if none was above 16; if one was, a symbol with a shorter Huffman code still has no longer one |
| HuffOptimal.OptimalCheapest | jpeg-8b/jchuff.c:1331-1389 | if none was above 16 no code takes fewer bits than the derived one |
| HuffOptimal.NoneLimited | jpeg-8b/jchuff.c:1355-1365 | no length is limited unless the counts total at least Fibonacci number 19 |
| HuffOptimal.OptimalAccepted | jpeg-8b/jchuff.c:228-245 | the derived-table builder accepts it, for DC if and only if no symbol above 15 was counted |
| HuffOptimal.OptimalCodes | jpeg-8b/jchuff.c:1270-1274 | every counted symbol has a code of 1 to 16 bits that is not all ones, and no other symbol has one |
| HuffWriter.MergeBits | jpeg-8b/jchuff.c:319-326 | masking, aligning and merging new bits leaves the buffer holding the old bits and then the new ones, in at most 24 |
| HuffWriter.TakeByte | jpeg-8b/jchuff.c:327-336 | the top byte of the buffer is the first eight pending bits, and shifting brings up the rest |
| HuffWriter.Writer.PutBits | jpeg-8b/jchuff.c:318-340 | the bits sent and the at most seven retained ones grow by exactly the new code, with 0xFF bytes stuffed |
| HuffWriter.Writer.EmitBits | jpeg-8b/jchuff.c:344-380 | fails just on size 0, sends nothing in a statistics pass, and otherwise sends the low bits of the code |
| HuffWriter.Writer.EmitSymbol | jpeg-8b/jchuff.c:410-434 | a statistics pass counts the symbol and never fails; an output pass sends its code and fails just when there is none |
| HuffWriter.Writer.FlushBits | jpeg-8b/jchuff.c:384-402 | the segment's bytes are the stuffing of the tokens' bits, with fewer than eight ones, and nothing else, to fill the last byte |
| HuffWriter.Writer.EmitRestart | jpeg-8b/jchuff.c:489-532 | the segment is finished, the restart marker follows, and the coder is as at the start of a scan |
| HuffReader.AppendByte | jpeg-8b/jdhuff.c:529-532 | loading a byte into the 32-bit buffer keeps the unused bits and puts the byte's after them |
| HuffReader.TakeBits | jpeg-8b/jdhuff.c:141-149 | shift and mask deliver the next bits, and leave the ones after them |
| HuffReader.Reader.GetData | jpeg-8b/jdhuff.c:487-527 | the next data byte with its stuffing undone, or the marker in its place; it waits just when the bytes that have arrived run out |
| HuffReader.Reader.RemainingIs | jpeg-8b/jdhuff.c:84-96 | the bits still to come are determined by position, buffer and marker: equal states read alike |
| HuffReader.Reader.FillBitBuffer | jpeg-8b/jdhuff.c:464-562 | loading keeps all the bits still to be read; zeros are made up only after a marker, so nothing is made up when it has to wait; what it comes to, without waiting, is what it comes to with all bytes there |
| HuffReader.Reader.SlowDecode | jpeg-8b/jdhuff.c:591-627 | the bit-serial search, entered at any length up to the code's own, returns the symbol whose code comes next and consumes just that code |
| HuffReader.Reader.HuffDecode | jpeg-8b/jdhuff.c:168-188 | so do the lookahead path and the fallback around it; whatever is read, the symbol is one of the table or zero, and the one that is read with all bytes there |
| HuffReader.Reader.ReadSymbol | jpeg-8b/jdhuff.c:168-188 | a decoder in step with a token list returns the next symbol and stays in step |
| HuffReader.Reader.Synchronize | jpeg-8b/jdhuff.c:1495-1501 | at the start of a segment the coder wrote, in front of any marker, the decoder is in step with its tokens |
| HuffReader.Reader.NextMarker | jpeg-8b/jdmarker.c:911-955 | finds the marker ahead past fill bytes and leftovers; when it has to wait, what it has not discarded is found again |
| HuffReader.Reader.ProcessRestart | jpeg-8b/jdhuff.c:635-668 | takes the expected restart marker and resets the decoder; when it has to wait it can be called again |
| HuffEobRun.RunAhead | jpeg-8b/jchuff.c:458-482 | a run's length, sent after its blocks, is what a decoder that meets it first has to count down, correction bits block by block |
| HuffEobRun.EmitEobrun | jpeg-8b/jchuff.c:458-482 | sends the run and the saved correction bits; it fails just when the run's symbol has no code, never by its safety check |
| HuffEobRun.OwedStep | jpeg-8b/jchuff.c:892-904 | one block's tokens followed by what is then owed are what was owed before; the counter stays below 0x7FFF and the buffer below its limit |
| HuffMeaning.RunSays | jpeg-8b/jchuff.c:458-482 | a run's symbol is the place of its leading bit, and the bits below that follow |
| HuffMeaning.RunStops | jpeg-8b/jchuff.c:892-904 | a run stops just at a block with a coefficient, at the last block, when it cannot be longer, or with more than 937 bits waiting |
| HuffValues.ExtendInverts | jpeg-8b/jdhuff.c:565-588 | sign extension inverts the coder's value bits for every nonzero value |
| HuffMeaning.ValueSays | jpeg-8b/jchuff.c:669-675 | the bits of a positive value are the value, those of a negative one the complement of its magnitude; the first is one just if it is positive |
| HuffMeaning.ExtendSays | jpeg-8b/jdhuff.c:565-588 | read back, bits with a leading one are themselves and all others stand for a negative value of that many bits |
| HuffMeaning.CoefSays | jpeg-8b/jchuff.c:669-703 | a coefficient is a ZRL for every sixteen zeros, a symbol of the remaining zeros and the size, and its bits |
| HuffMeaning.DcSays | jpeg-8b/jchuff.c:927-956 | a DC difference is its size, and its bits unless it is zero |
| HuffMeaning.BandSays | jpeg-8b/jchuff.c:961-1006 | a nonzero coefficient comes with the number of zeros since the one before |
| HuffMeaning.NothingLeft | jpeg-8b/jchuff.c:961-1006 | and nothing comes behind the last one |
| HuffMeaning.EndSays | jpeg-8b/jchuff.c:1000-1006 | a sequential block has an end-of-block, the symbol 0, just if its last coefficient is zero, and nothing behind it |
| HuffValues.EmitCoef | jpeg-8b/jchuff.c:669-703 | a coefficient after any run of zeros; it fails just when out of range or without a code |
| HuffAcFirst.CoefsMeet | jpeg-8b/jdhuff.c:803-833 | what the decoder meets at a coefficient: a ZRL just when sixteen zeros or more are followed by something, else the coefficient, else nothing |
| HuffAcFirst.EncodeAcFirst | jpeg-8b/jchuff.c:627-730 | a block of a first AC scan adds exactly its tokens and leaves the right run; it fails just on a coefficient out of range or a missing code |
| HuffAcFirst.DecodeAcFirst | jpeg-8b/jdhuff.c:765-843 | in step with blocks and their runs the routine places exactly the band; a suspended attempt has placed only part of it |
| HuffAcRefine.ZrlWith | jpeg-8b/jchuff.c:845-856 | sixteen zeros more before a new coefficient make one ZRL, which takes the waiting correction bits along |
| HuffAcRefine.HeadMeets | jpeg-8b/jchuff.c:839-890 | the coder's tokens are, at every coefficient, what the decoder reads: a symbol, then the correction bits of what it passes over |
| HuffAcRefine.EmitWithBits | jpeg-8b/jchuff.c:872-889 | the pending run goes out first, then the symbol, the sign and the buffered bits that belong to it |
| HuffAcRefine.EncodeAcRefine | jpeg-8b/jchuff.c:785-910 | a refined block adds exactly its tokens and leaves the right run and saved bits, the bit buffer never overflowing; it fails just on a missing code |
| HuffMeaning.NewSays | jpeg-8b/jchuff.c:868-879 | a coefficient that becomes nonzero is the zeros before it with a size of 1, and a one just if it is positive |
| HuffMeaning.CorrSays | jpeg-8b/jchuff.c:858-868 | a correction bit is the last bit of the magnitude of a coefficient that was nonzero before, and every one of those has one |
| HuffAcRefinePass.Corrected | jpeg-8b/jdhuff.c:985-993 | the correction bit takes a coefficient to its value at Al, whether or not an earlier attempt has already done so |
| HuffAcRefinePass.PassOver | jpeg-8b/jdhuff.c:979-1002 | passes exactly the still-zero coefficients asked for and corrects every old one on the way |
| HuffAcRefineDecode.UndoneRefinable | jpeg-8b/jdhuff.c:1044-1049 | after the undo no new coefficient is left, and the block can be tried again |
| HuffAcRefineDecode.UndoneIsKept | jpeg-8b/jdhuff.c:1044-1049 | on any input, zeroing the listed positions leaves zeros just where there were zeros, and bits added elsewhere |
| HuffAcRefineDecode.DecodeAcRefine | jpeg-8b/jdhuff.c:903-1050 | in step, from a fresh block or one tried before, the band ends up exactly as coded; when suspended it can be tried again |
| HuffDc.EncodeDc | jpeg-8b/jchuff.c:566-598 | a DC difference and the new predictor; it fails just on a difference of more than 11 bits or a missing code |
| HuffDc.DecodeDc | jpeg-8b/jdhuff.c:723-735 | in step with a difference the predictor is restored |
| HuffDc.EncodeAcPart | jpeg-8b/jchuff.c:961-1006 | the AC coefficients of a sequential block with their end-of-block; it fails just on a coefficient out of range or a missing code |
| HuffDc.CountAcPart | jpeg-8b/jchuff.c:1152-1191 | the statistics pass counts exactly the symbols the output pass sends, and fails on the same coefficients |
| HuffDc.DecodeAcPart | jpeg-8b/jdhuff.c:1238-1292 | in step with a sequential block of which all coefficients are wanted, the routine places exactly its AC coefficients |
| HuffLimited.DecodeLimited | jpeg-8b/jdhuff.c:1211-1290 | with any coef_limit the decoder ends up at the next block; what is wanted of the block is in its place, a component that is not needed keeps its predictor |
| HuffLimited.DiscardAc | jpeg-8b/jdhuff.c:1270-1288 | the discarding loop drops the rest of a block's coefficients and its end-of-block, and nothing more |
| HuffBlock.EncodeBlock | jpeg-8b/jchuff.c:540-1225 | any of the MCU routines adds exactly its block's tokens, in a statistics pass as in an output pass |
| HuffBlock.StepAhead | jpeg-8b/jchuff.c:892-904 | a block's tokens are the next of the segment's, whatever run is pending |
| HuffScan.EncodeScanHuff | jpeg-8b/jchuff.c:510-1106 | an output pass makes the stuffed bits of the segments' tokens joined by restart markers, failing just on a value out of range or a missing code; a statistics pass counts all the same tokens |
| Prediction.HuffSegment | jpeg-8b/jchuff.c:566-598 | a segment can be coded just if each difference to the last block of the same component can, and is the blocks' tokens in turn |
| Prediction.HuffBlockSays | jpeg-8b/jchuff.c:540-776 | a block starts with the size of its DC difference; a refinement is the next lower bit, of negative values too |
| HuffRetry.SetTwice | jpeg-8b/jdhuff.c:886-888 | setting the refinement bit of a DC coefficient twice is setting it once |
| HuffRetry.EffectsAgain | jpeg-8b/jdhuff.c:683-687 | for blocks the coder coded: decoding an MCU over the traces of any abandoned attempt gives what decoding it once gives |
| HuffRetry.PartWay | jpeg-8b/jdhuff.c:683-687 | an attempt that got through some of the blocks has changed no coefficient except to its final value |
| HuffWrites.MendTwice | jpeg-8b/jdhuff.c:985-993 | adding the refinement bit a second time changes nothing, for any value at all, and never makes a nonzero one zero |
| HuffWrites.DoAgain | jpeg-8b/jdhuff.c:683-687 | stores and added bits of which any beginning was done before, in whole or in part, come to the same when all are done |
| HuffWrites.AbandonedAt | jpeg-8b/jdhuff.c:1044-1049 | after an abandoned refinement just the same coefficients are nonzero as before it |
| HuffWhole.CallSame | jpeg-8b/jdhuff.c:969-1033 | what a call reads depends on the blocks only in AC refinement, and there only on which coefficients are zero |
| HuffWhole.Again | jpeg-8b/jdhuff.c:683-687 | on any input, a call over what an abandoned one has left ends in the same success, state and coefficients as over the untouched blocks |
| HuffMcu.DecodeBlock | jpeg-8b/jdhuff.c:694-1302 | any of the routines, in step, has exactly the block's effect, or when suspended only part of it; on any input it does what it does with all bytes there, or a beginning of that |
| HuffDecode.Attempt | jpeg-8b/jdhuff.c:683-687 | for every input and all tables the decoder accepts: a suspended call leaves the saved state as it was and in the blocks a beginning of what the call would write with all bytes there, and called again it ends as it would have over the untouched blocks |
| HuffDecode.DecodeMcuWaiting | jpeg-8b/jdhuff.c:683-687 | for every input, all tables the decoder accepts and any arrivals: success, saved state and coefficients are those of one call with all bytes there; for a stream in step these are the coded blocks |
| HuffDecode.DecodeAnyMcu | jpeg-8b/jdhuff.c:683-687 | the same with no coder in sight: one MCU of any bytes, with any accepted tables, arriving anyhow, is what one call with all bytes there makes of it |
| HuffDecode.DecodeMcus | jpeg-8b/jdcoefct.c:144-176 | the MCUs up to a restart, or to the first that the input is too short for, end as a run of calls with all bytes there, whatever the input and the arrivals |
| HuffDecodeScan.DecodeScanHuff | jpeg-8b/jdhuff.c:635-1355 | a coded scan with restarts is read back with exactly the effect of the coded blocks, in whatever portions its bytes arrive |
| HuffSymbols.ScanSymbols | jpeg-8b/jchuff.c:1121-1225 | a scan uses every table it sets up, only those, and only symbols whose low bits are a size |
| HuffOptimize.FinishGather | jpeg-8b/jchuff.c:1396-1441 | each table of the scan is optimized once from its counts; it fails only on a code above 32 bits, which takes millions of symbols |
| HuffOptimize.FewSymbols | jpeg-8b/jchuff.c:1255-1262 | no more than 192 symbols can be counted for one table, so the 8-bit counters hold |
| HuffOptimize.OptimalCovers | jpeg-8b/jchuff.c:1112-1118 | with the tables of the statistics pass every token of the output pass has a code |
| HuffOptimize.SameTables | jpeg-8b/jdhuff.c:1375-1440 | the coder's and the decoder's derived tables of a scan describe the same codes |
| HuffOptimize.BuiltIsSetUp | jpeg-8b/jdhuff.c:1375-1440 | tables that start_pass has built are all the decoding routines ask for, whoever coded the scan |
| HuffTransmission.OutputPass | jpeg-8b/jcmaster.c:660-717 | an output pass with the tables of its statistics pass never hits the missing-code error |
| HuffTransmission.EncodeImage | jpeg-8b/jcmaster.c:644-779 | every scan of an accepted script is coded with its own tables; it fails only on a coefficient out of range or a code above 32 bits |
| HuffTransmission.DecodeImage | jpeg-8b/jdhuff.c:635-1355 | over any accepted script the coefficients come back exactly as far as their last scan sent them |
| HuffTransmission.Transmit | jpeg-8b/jcmaster.c:337-469 | coding and decoding together succeed for coefficients of up to 10 bits, and a script that sends every bit loses nothing |
| Geometry.RoundsUpTwice | jpeg-8b/jcmaster.c:306-326 | rounding a component's size up to blocks and those up to MCUs gives the number of MCUs of the whole image |
| Geometry.InitialSetup | jpeg-8b/jcmaster.c:219-327 | succeeds just for images, component counts and sampling factors within the limits, and then every component spans the same MCU rows and columns |
| Geometry.PerScanSetup | jpeg-8b/jcmaster.c:552-639 | fails just on too many components or blocks in an MCU; what it finds for the last column and row is the number of real blocks there |
| McuOrder.EachBlockOnce | jpeg-8b/jccoefct.c:345-399 | the MCUs of a scan hold every block that belongs to it once: the real ones of a single component, whole MCUs of several |
| McuOrder.RowsFollow | jpeg-8b/jccoefct.c:71-91 | the block rows of one iMCU row follow on those before it, at the bottom of the image only what is left |
| ScanOrder.AllInTurn | jpeg-8b/jccoefct.c:345-399 | the blocks come in the order of section A.2: rows of MCUs, MCUs from left to right, components in turn, and each component's blocks in rows |
| Controllers.MembershipTells | jpeg-8b/jcmaster.c:617-624 | block k of any MCU belongs to the component that MCU_membership names for it |
| Controllers.FillsBelow | jpeg-8b/jccoefct.c:190-199 | below the image every block has the DC value of the last block of the MCU row above, which is that of a real block |
| Controllers.Counters.StartImcuRow | jpeg-8b/jccoefct.c:71-91 | one MCU row for several components, as many as the component has block rows there for one |
| CoefOnePass.FillMcu | jpeg-8b/jccoefct.c:155-201 | the MCU buffer holds the MCU's blocks as the specified image shows them, fill-up blocks included |
| CoefOnePass.CompressData | jpeg-8b/jccoefct.c:143-231 | the coder gets the MCUs up to where the counters are, whether or not it had room for all of an iMCU row |
| CoefOnePass.CompressPass | jpeg-8b/jccoefct.c:143-231 | however often the coder had no room, it gets every MCU of the image once, in order |
| CoefController.FillComponent | jpeg-8b/jccoefct.c:257-325 | an iMCU row of the full-image array, right and bottom fill-up blocks included, is the specified image; no other row changes |
| CoefController.CompressOutput | jpeg-8b/jccoefct.c:345-399 | out of the arrays the coder gets the same MCUs, up to where the counters are |
| CoefController.FirstPass | jpeg-8b/jccoefct.c:245-335 | the pass that fills the arrays hands the coder every MCU of the scan once, in order, and leaves the whole image in the arrays |
| CoefController.OutputPass | jpeg-8b/jccoefct.c:345-399 | so does a later pass out of the arrays |
| CoefTranscode.ListMcu | jpeg-8b/jctrans.c:298-331 | from arrays without fill-up blocks and a workspace whose AC coefficients stay zero, the MCU is the same |
| CoefTranscode.TranscodePass | jpeg-8b/jctrans.c:249-345 | the transcoder hands the coder the same MCUs in the same order as the compressor |
| CoefDecode.PointMcu | jpeg-8b/jdcoefct.c:273-286 | the decoder's list of blocks of an MCU is the coder's |
| CoefDecode.StoreMcu | jpeg-8b/jdcoefct.c:273-294 | the MCU's blocks go to their places, and no other block changes |
| CoefDecode.ConsumeData | jpeg-8b/jdcoefct.c:243-303 | whatever has arrived, the MCUs fetched are in the arrays and the counters are at the next one |
| CoefDecode.ConsumeScan | jpeg-8b/jdcoefct.c:243-303 | after the scan every block that belongs to it is in its place, and all others are what they were |
| CoefDecode.Through | jpeg-8b/jdcoefct.c:243-303 | blocks that went through the one-pass compressor come back at the same coordinates |
| ScanPlans.ChopKeeps | jpeg-8b/jcmaster.c:630-638 | restart intervals change neither the blocks of a scan nor their order |
| ScanPlans.ChopSizes | jpeg-8b/jchuff.c:1029-1062 | every segment but the last has just the interval's number of MCUs, and no segment is empty |
| ScanPlans.PlanServes | jpeg-8b/jccoefct.c:345-399 | the blocks a scan visits by its geometry are as the entropy coders need them: none twice, every real one, one per MCU in AC scans |
| WholeImage.SetUpScans | jpeg-8b/jcmaster.c:552-639 | every scan of an accepted script is set up, unless an interleaved MCU would have too many blocks |
| WholeImage.SameBlocks | jpeg-8b/jccoefct.c:345-399 | what the controllers hand over as an MCU is what the scan theorems call its blocks |
| WholeImage.FeedCoder | jpeg-8b/jccoefct.c:144-232 | the one-pass controller hands the entropy coder, MCU by MCU, just the blocks of the coefficient arrays that the scan theorems say it codes |
| WholeImage.StoreDecoded | jpeg-8b/jdcoefct.c:254-312 | from those blocks, MCU by MCU, the decoder's controller fills its arrays with the image's blocks |
| WholeImage.SendArithmetic | jpeg-8b/jdarith.c:189-735 | an image of 15-bit coefficients, any sampling factors, any accepted script and restart intervals: if every bit is sent every block arrives at its place |
| WholeImage.SendHuffman | jpeg-8b/jdhuff.c:635-1355 | the same with Huffman coding and tables optimized for each scan, for 10-bit coefficients and bytes that arrive in any portions |
| PointerLists.EntryOther | jpeg-8b/jdmainct.c:214-219 | the last two row groups read through one pointer list are behind the end of the other |
| ContextViews.ViewMiddle | jpeg-8b/jdmainct.c:405-432 | in the middle of an iMCU row a row group is seen between its true neighbours, the first row repeating itself above the image |
| ContextViews.ViewPostponed | jpeg-8b/jdmainct.c:402-412 | the last row group of an iMCU row, processed after the next one has been read, is seen between its true neighbours |
| ContextViews.ViewBottom | jpeg-8b/jdmainct.c:265-297 | in the last iMCU row the last real row stands for all rows after it |
| ContextMain.NearRowsTrue | jpeg-8b/jdmainct.c:62-77 | the rows of every row group, the row above it and the row below it are seen as the true ones |
| ContextMain.AllRowsTrue | jpeg-8b/jdmainct.c:384-432 | a whole row group of context is true unless the row group is just before the last iMCU row and that has less than one real row group: the pointers are set for the bottom too late for it |
| ContextMain.WrongRow | jpeg-8b/jdmainct.c:62-77 | an image 17 rows high in which a row below the image is seen where its last row should be |
| ContextMain.SameGroups | jpeg-8b/jdmainct.c:281-287 | every component has the same number of real row groups |
| MainController.SetBottomPointers | jpeg-8b/jdmainct.c:265-297 | each component's pointers repeat its last real row, and the number of row groups found for one is right for all |
| MainController.LoadRows | jpeg-8b/jdmainct.c:389-398 | reading an iMCU row keeps the two row groups before it, behind the end of the list |
| MainController.Main.ProcessData | jpeg-8b/jdmainct.c:384-447 | a call with any source and output keeps the state machine's promise and makes progress |
| MainController.ProcessAll | jpeg-8b/jdmainct.c:384-447 | every real row group of the image is seen exactly once, in order, between the rows specified for it |
| PrepContext.Prep.Downsample | jpeg-8b/jcprepct.c:241-257 | a row group goes to the downsampler between its true neighbours, the first and the last row repeating themselves, and the ring moves on |
| PrepContext.Prep.PreProcess | jpeg-8b/jcprepct.c:196-260 | for any portions of rows every row group has been seen as it should; a call ends when it has enough row groups or wants more rows |
| Upsampling.MergedPair | jpeg-8b/jdmerge.c:295-358 | two output rows at once, each pixel with its own luminance and its pair's colour, for any width |
| Upsampling.Separate.Upsample | jpeg-8b/jdsample.c:90-141 | the rows of the picture go out in order, as many as there is room for |
| Upsampling.Merged.Upsample2v | jpeg-8b/jdmerge.c:144-189 | so they do here: the spare row is neither lost nor repeated |
| Upsampling.AllSeparate | jpeg-8b/jdsample.c:90-286 | in all the picture's rows, whatever the caller asked for |
| Upsampling.AllMerged | jpeg-8b/jdmerge.c:144-358 | the merged way puts out exactly the rows of the separate one, of odd widths and heights too |
| Colour.Grey | jpeg-8b/jdcolor.c:149-153 | without colour a pixel is grey |
| Colour.Shades | jpeg-8b/jdcolor.c:149-153 | red depends on Cr alone and does not fall with it, blue on Cb alone; green does not rise with either |
| Colour.Equations | jpeg-8b/jdmerge.c:104-122 | each colour is within 0.51 of the conversion equation's value, taken into the range of a sample |
| Upsampling.BuildYccRgbTable | jpeg-8b/jdmerge.c:104-122 | the tables are those the conversion is defined with |
| HuffSegments.EmitDht | jpeg-8b/jcmarker.c:186-220 | the segment that defines the table, unless it has been sent |
| HuffSegments.HuffTables.GetDht | jpeg-8b/jdmarker.c:424-482 | reads just that segment, restores counts and symbols in use and touches no other table; while bytes are missing nothing changes |
| SegmentLayout.DhtLayout | jpeg-8b/jcmarker.c:186-220 | where the segment has its length, class, destination, counts and symbols |
| QuantSegments.EmitDqt | jpeg-8b/jcmarker.c:145-182 | the segment in 16 bits just if a value in use needs them |
| QuantSegments.QuantTables.GetDqt | jpeg-8b/jdmarker.c:495-579 | reads just that segment and restores the values in use, for whole and reduced blocks, the others becoming 1; while bytes are missing the restart point stays |
| SegmentLayout.DqtLayout | jpeg-8b/jcmarker.c:145-182 | where it has its precision, destination and values, in zigzag order, with the high byte first |
| ArithSegments.EmitDac | jpeg-8b/jcmarker.c:224-267 | the segment with the conditioning of exactly the tables the scan uses |
| ArithSegments.Reader.GetDac | jpeg-8b/jdmarker.c:378-414 | reads just that segment and restores the conditioning in use, leaving the rest as it was |
| SegmentLayout.DacLayout | jpeg-8b/jcmarker.c:224-267 | where each table's class, destination and conditioning are |
| FrameSegments.EmitSof | jpeg-8b/jcmarker.c:283-310 | the frame header, or an error if the image is too big for its fields |
| FrameSegments.GetSof | jpeg-8b/jdmarker.c:238-300 | reads just that segment and restores the frame, unless it is empty or a second one |
| SegmentLayout.SofLayout | jpeg-8b/jcmarker.c:283-310 | where the image's height and width and each component's identifier, factors and table are |
| FrameSegments.EmitSos | jpeg-8b/jcmarker.c:314-345 | the scan header, with 0 for tables the scan does not use |
| FrameSegments.GetSos | jpeg-8b/jdmarker.c:304-371 | reads just that segment and finds the scan's components by their identifiers, with the tables in use |
| SegmentLayout.SosLayout | jpeg-8b/jcmarker.c:314-345 | where each component's identifier and tables and the scan's band and bit positions are |
| BoundaryScan.MpStream.Read | cgic205/cgic.c:341-380 | what was put back comes first, then the input; the stream is what remains |
| BoundaryScan.MpStream.PutBack | cgic205/cgic.c:382-390 | bytes go behind those put back before, around the ring |
| BoundaryScan.Step | cgic205/cgic.c:712-745 | while part of the boundary is matched next to nothing is held back, and what a false match puts back always fits |
| BoundaryScan.AfterNextBoundary | cgic205/cgic.c:683-795 | succeeds just if the boundary occurs with two bytes behind it; then the bytes before its leftmost occurrence come out and the stream is left behind it |
| BoundaryScan.LosesNothing | cgic205/cgic.c:744-757 | nothing but a newline is lost behind a boundary just if a newline or a dash follows it |
| BoundaryScan.LosesOthers | cgic205/cgic.c:744-757 | letters behind a boundary, and a blank and a carriage return, are lost |

## Left out

- Suspension of the entropy coders inside an MCU (a full destination buffer) and of the arithmetic decoder, which cannot suspend: there a source that runs dry ends the call with a failure.
- Resynchronization after a damaged restart marker (`jpeg_resync_to_restart`), warnings and the bounded results for corrupt data.
- Restart counting inside the entropy coders: a scan is given as the list of its restart segments, which `ScanPlans` makes from the interval; `restarts_to_go` is not a field.
- Statistics areas of tables a scan does not use are cleared too at the start of a segment; the C code leaves those untouched and never reads them.
- `encode_mcu` and `encode_mcu_AC_first` of the arithmetic coder share one AC routine here, with the band 1 to `lim_Se` and no point transform for the former; the same holds on the decoder's side.
- The `_s` and `_e` variants of the Huffman coder's bit emission, which differ only in suspension, are one routine; merging bits with `|=` is addition of bits that do not overlap.
- HuffWriter.Writer.EmitRestart: is called after `emit_eobrun`, which `HuffScan.EndSegment` is; resets the predictors and the run fields together, where the code resets those its scan uses; the others are zero already.
- HuffReader.Reader.ProcessRestart: takes the expected marker or reports another; `jpeg_resync_to_restart`, the only case in which a marker stays unread and the out-of-data flag with it, and `discarded_bytes` are not modelled.
- HuffDc.DecodeAcPart: is the case in which all coefficients are wanted, which the scan theorems use; any other `coef_limit` is in `HuffLimited`.
- HuffAcFirst.DecodeAcFirst: leaves the reader's working state as it is when it has to wait, and does not look at the out-of-data flag; `HuffDecode` does both for all routines, as the code does for each.
- HuffAcRefineDecode.DecodeAcRefine: likewise; it undoes only its own coefficients.
- HuffLimited.DecodeLimited: speaks of streams in step; the theorem about any input is about blocks that are wanted whole.
- Overflow of a DC predictor, an `int` in C, which takes tens of thousands of largest differences on end in damaged data.
- HuffDecodeScan.DecodeScanHuff: speaks of scans this coder coded and requires the decoder's tables to be those of a coder; any other tables and streams are in `HuffDecode`, up to the next restart.
- HuffOptimize.FinishGather: requires at most 10^9 tokens in the scan, the bound of the optimizer's search.
- HuffOptimal.OptimalCheapest: claims nothing once a length was above 16 and had to be limited, nor does section K.2; the pseudo-symbol that keeps the code of all ones free counts as a symbol.
- Geometry.InitialSetup: choice of DCT sizes and of the block size is not modelled; a component is measured in blocks.
- Geometry.PerScanSetup: returns its results as values instead of storing them in the component records.
- CoefDecode.ConsumeScan: stores whole blocks, as a first sequential scan does; what progressive scans do to blocks is in the scan theorems.
- `decompress_onepass` and the forward and inverse DCT: the controllers are given quantized blocks.
- ContextMain.SameGroups: the components' common number of row groups is a parameter of `MainController`, constrained as this lemma says.
- PrepContext.Prep.PreProcess: one buffer of rows stands for those of all components, which the code treats alike.
- Upsampling.AllMerged: 8-bit samples; it holds for any range-limit table, while what colours come out is said in `Colour` for the one that takes a sum to the nearest sample.
- HuffSegments.HuffTables.GetDht: places of `huffval` without a symbol are zero where the code leaves them undefined.
- BoundaryScan.AfterNextBoundary: promises nothing for the first boundary, and memory is never short; header lines of a part are left out.
- Reduced block sizes in scan scripts (`reduce_script`), progress reporting, application markers; quantization, colour conversion but for YCC to RGB, fancy upsampling and the memory manager.
