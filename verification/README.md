# Bit-level encoding engine of the Universal Radio Hacker

This project models the `encoding` class of the Universal Radio Hacker in
Dafny and proves what its stages, its chain configuration and its `code`
interpreter do. It also models two small pure algorithms found in other
classes. The first is the zero-run finder and block split of the
BlockBreak plugin. The second is the value search and table shape of the
protocol table model.

The encoding is a chain. The chain holds a name, then a list of stages,
and each parameterised stage carries its parameter. The stages are:

- invert;
- differential;
- redundancy;
- carrier;
- bit-order swap;
- edge;
- substitution;
- CC1101 data whitening, which draws its keystream from an LFSR;
- an external program.

`set_chain` reads the chain from a token list and `get_chain` writes it
back. `code` runs the stages on a bit list. When decoding it goes first to
last; when encoding it goes last to first. Before each stage runs, `code`
loads the stage's parameter into the codec state.

Bit lists are `seq<bool>` (`BitStrings.Bits`). Every stage is a pure
function that returns `(bits, errors)`. Where the source raises an
exception or loops for ever, the interpreter returns a
`CodecEngine.Fault` instead. It also stops with a fault in two places
where the source carries on silently with values the model does not
represent (see "Left out").

Three things the code calls are not part of the model, so they are
parameters:

- the CRC engine: `DataWhitening.CrcEngine`, any function to 16 bits;
- the external-program runner: `CodecEngine.Env.run`;
- the stage keyword constants: `ChainConfig.Vocabulary`.

One module per file:

| file | module | models |
|---|---|---|
| wrappers.dfy | Wrappers | `Option` and `Result` |
| seqs.dfy | Sequences | concatenation and slicing facts the proofs share |
| bits.dfy | BitStrings | `str2bit`, `bit2str` |
| text.dfy | Text | `str.split`, `str.join`, the `in` substring test, `int()` on decimal text and `str()` of an integer |
| hex.dfy | HexCodec | `hex2bit`, `bit2hex` |
| stages.dfy | SimpleStages | invert, differential, bit order, edge, external program |
| redundancy.dfy | RedundancyCode | `code_redundancy` |
| carrier.dfy | CarrierCode | `code_carrier` |
| substitution.dfy | SubstitutionCode | `code_substitution`, `get_subst_array`, `get_subst_string` |
| lfsr.dfy | LfsrKeystream | `lfsr` and the keystream built from it |
| whitening.dfy | DataWhitening | `apply_data_whitening` |
| chain.dfy | ChainConfig | `set_chain`, `get_chain` |
| walk.dfy | ChainWalk | the index walk of `code` over the chain list |
| codec.dfy | CodecEngine | `code`, `encode`, `decode`, `analyze` |
| block_break.dfy | BlockBreak | `BlockBreakAction.redo`, `__get_zero_seq_indexes` |
| table_model.dfy | ProtocolTable | `TableModel.find_protocol_value`, the shape part of `update` |

## Model

| member | source | states |
|---|---|---|
| BitStrings.StrToBitsOfBitsToStr | src/urh/signalprocessing/encoding.py:577-593 | Reading back the '0'/'1' text of a bit list gives the same bits. |
| BitStrings.BitsToStrOfStrToBits | src/urh/signalprocessing/encoding.py:577-593 | Text made only of '0' and '1' comes back verbatim after `str2bit` then `bit2str`. |
| BitStrings.BitsToStrIsBinary | src/urh/signalprocessing/encoding.py:577-579 | `bit2str` writes only '0' and '1'. |
| BitStrings.StrToBits | src/urh/signalprocessing/encoding.py:592-593 | One bit per character, set exactly when the character is '1'; any other character gives an unset bit. |
| BitStrings.BitsToStr | src/urh/signalprocessing/encoding.py:577-579 | One character per bit: '1' for a set bit, '0' for an unset one. |
| Text.Split | src/urh/signalprocessing/encoding.py:161-164 | Splitting gives one more part than there are separators, and no part contains the separator. |
| Text.JoinSplit | src/urh/signalprocessing/encoding.py:161-164 | Joining the parts of a split with the separator gives back the text. |
| Text.SplitJoin | src/urh/signalprocessing/encoding.py:161-164 | Splitting a join of separator-free parts gives back the parts. |
| Text.ContainsMeaning | src/urh/signalprocessing/encoding.py:76-112 | The keyword test `kw in token` holds exactly when the keyword occurs at some position of the token. |
| Text.ParseInt | src/urh/signalprocessing/encoding.py:203 | The model's reader of a redundancy parameter succeeds exactly on ASCII decimal digits with an optional '+' or '-' sign. |
| Text.DigitsValueOfDigits | src/urh/signalprocessing/encoding.py:203 | The value read from the decimal digits of n is n. |
| Text.DigitsOfDigitsValue | src/urh/signalprocessing/encoding.py:203 | Digits without a leading zero are exactly the decimal digits of the value read from them. |
| Text.DecimalRoundTrip | src/urh/signalprocessing/encoding.py:203 | `int(str(n)) == n` for every integer n, negative ones included. |
| Text.ParseIntRoundTrip | src/urh/signalprocessing/encoding.py:203 | Text in the form `str` writes integers parses, and printing the value gives the text back. |
| HexCodec.HexChar | src/urh/signalprocessing/encoding.py:602 | Each nibble value gets a hex digit that reads back as the same value. |
| HexCodec.NibbleRoundTrip | src/urh/signalprocessing/encoding.py:612-615 | Four bits read as a nibble value and written back are the same four bits. |
| HexCodec.HexToBits | src/urh/signalprocessing/encoding.py:608-618 | The model's `hex2bit` gives a multiple of four bits. It gives none exactly when the text, minus an optional 0x or 0X prefix, is not all ASCII hex digits. The first nibble is non-zero unless the value is zero. |
| HexCodec.PadToNibble | src/urh/signalprocessing/encoding.py:598-601 | Padding keeps the bits in front, appends only zeros, and stops at the next multiple of four. |
| HexCodec.BitsToHex | src/urh/signalprocessing/encoding.py:596-605 | `bit2hex` gives the empty text exactly for the empty bit list. |
| HexCodec.HexRoundTrip | src/urh/signalprocessing/encoding.py:596-618 | Bits whose length is a multiple of four and whose first nibble is non-zero survive `bit2hex` then `hex2bit`. |
| HexCodec.HexToBitsStable | src/urh/signalprocessing/encoding.py:596-618 | Except for the zero value, whatever `hex2bit` returns survives another `bit2hex` then `hex2bit`. |
| HexCodec.SyncWordDigits | src/urh/signalprocessing/encoding.py:93 | The default sync text "0xe9cae9ca" becomes the bits of "e9ca" twice. |
| SimpleStages.Invert | src/urh/signalprocessing/encoding.py:455-457 | Invert flips every bit, keeps the length and reports no error. |
| SimpleStages.InvertInvolution | src/urh/signalprocessing/encoding.py:455-457 | Inverting twice gives back the input. |
| SimpleStages.Differential | src/urh/signalprocessing/encoding.py:459-484 | Both directions keep the length and the first bit and report no error. |
| SimpleStages.TransitionsOfToggles | src/urh/signalprocessing/encoding.py:463-483 | The decoder's transition bits undo the encoder's toggling. |
| SimpleStages.TogglesOfTransitions | src/urh/signalprocessing/encoding.py:463-483 | The encoder's toggling undoes the decoder's transition bits. |
| SimpleStages.DifferentialDecodeEncode | src/urh/signalprocessing/encoding.py:459-484 | For non-empty bits, decoding the differential encoding gives back the input with no error. |
| SimpleStages.DifferentialEncodeDecode | src/urh/signalprocessing/encoding.py:459-484 | For non-empty bits, encoding the differential decoding gives back the input with no error. |
| SimpleStages.BitOrder | src/urh/signalprocessing/encoding.py:401-413 | The bit-order swap keeps the length and reports `len mod 8` errors. |
| SimpleStages.SwapGroupsGroup | src/urh/signalprocessing/encoding.py:406-412 | Every full 8-bit group comes out reversed in place. |
| SimpleStages.SwapGroupsTail | src/urh/signalprocessing/encoding.py:406-412 | The bits after the last full group are left as they are. |
| SimpleStages.BitOrderInvolution | src/urh/signalprocessing/encoding.py:401-413 | Swapping twice gives back the input with the same error count. |
| SimpleStages.EdgeDecodeFrom | src/urh/signalprocessing/encoding.py:490-498 | Every input position is accounted for. An equal pair counts one error and one position; an emitted bit takes two positions. Together they reach the end, or one past it. |
| SimpleStages.EdgeSymbol | src/urh/signalprocessing/encoding.py:500-504 | Bit b is written as the unequal pair [not b, b]. |
| SimpleStages.Edge | src/urh/signalprocessing/encoding.py:486-505 | Encoding doubles the length with no error. Decoding obeys the position count above. |
| SimpleStages.EdgeDecodeShift | src/urh/signalprocessing/encoding.py:490-498 | Decoding from a position reads only the bits from the one before it onwards. |
| SimpleStages.EdgeRoundTrip | src/urh/signalprocessing/encoding.py:486-505 | Decoding the edge encoding gives back the input with no error. |
| SimpleStages.External | src/urh/signalprocessing/encoding.py:553-565 | Without a command for the direction, the result is ([], 1). Otherwise it is the command's output read with `str2bit`, the bits being passed as text. |
| RedundancyCode.RepeatEach | src/urh/signalprocessing/encoding.py:446-448 | Encoding with factor m gives m bits per input bit. |
| RedundancyCode.Redundancy | src/urh/signalprocessing/encoding.py:415-453 | Empty input or a factor of at most 1 gives ([], 0). Encoding reports no error and multiplies the length by m. Decoding reports at most one error per input bit. |
| RedundancyCode.DedupFrom | src/urh/signalprocessing/encoding.py:420-444 | The decoder's error count never exceeds the number of bits read. |
| RedundancyCode.DedupRun | src/urh/signalprocessing/encoding.py:424-444 | A run of k equal bits, entered with a partial count c, emits ⌊(c+k)/m⌋ bits. It leaves the remainder as the counter for the rest. |
| RedundancyCode.RunThenSwitch | src/urh/signalprocessing/encoding.py:424-441 | A value switch costs one error exactly when the run before it left a non-zero count. |
| RedundancyCode.RepeatEachDedup | src/urh/signalprocessing/encoding.py:420-448 | Decoding m-fold repetition gives back the bits with no error. |
| RedundancyCode.RedundancyRoundTrip | src/urh/signalprocessing/encoding.py:415-453 | For m > 1, decoding the encoding gives back the input with no error. |
| CarrierCode.Interleave | src/urh/signalprocessing/encoding.py:386-389 | Each data bit is preceded by a copy of the carrier: (L+1) bits per data bit. |
| CarrierCode.Carrier | src/urh/signalprocessing/encoding.py:375-391 | No errors. An empty carrier gives no bits. Encoding with L > 0 carrier bits gives n·(L+1)+L bits. |
| CarrierCode.InterleaveBlock | src/urh/signalprocessing/encoding.py:386-390 | Block k of the encoding is the carrier followed by data bit k, so data bit k sits at index k·(L+1)+L. |
| CarrierCode.PickInterleave | src/urh/signalprocessing/encoding.py:381-383 | The decoder's stride picks exactly the data bits, whatever trailing carrier follows. |
| CarrierCode.CarrierRoundTrip | src/urh/signalprocessing/encoding.py:375-391 | With a non-empty carrier, decoding the encoding gives back the input with no error. |
| SubstitutionCode.Occurrences | src/urh/signalprocessing/encoding.py:531 | `list.count` is zero exactly when the window is not in the list. |
| SubstitutionCode.IndexOf | src/urh/signalprocessing/encoding.py:533 | `list.index` is the first position holding the window. |
| SubstitutionCode.Substitution | src/urh/signalprocessing/encoding.py:507-551 | An empty table gives ([], 1). Empty input with a table gives ([], 0). With a table, the error count lies between 0 and the input length. |
| SubstitutionCode.SubstituteFrom | src/urh/signalprocessing/encoding.py:529-549 | The error count of the scan is never negative. |
| SubstitutionCode.ErrorsBounded | src/urh/signalprocessing/encoding.py:529-549 | Each error consumes one position, so the scan from i counts at most len(x) − i errors. |
| SubstitutionCode.ClassifyMeaning | src/urh/signalprocessing/encoding.py:530-536 | A window is missing exactly when no source equals it, ambiguous exactly when two sources equal it, and unique otherwise, in which case it emits the target at the position of its source. |
| SubstitutionCode.OccurrencesRepeated | src/urh/signalprocessing/encoding.py:530 | `count` reaches two exactly when the window sits at two different positions. |
| SubstitutionCode.SubstituteFromPicks | src/urh/signalprocessing/encoding.py:529-549 | The output is the concatenation of the targets of the uniquely matched windows, in input order. |
| SubstitutionCode.SubstituteFromWords | src/urh/signalprocessing/encoding.py:529-549 | For any table and input, the output is a concatenation of target entries. |
| SubstitutionCode.SubstitutionWords | src/urh/signalprocessing/encoding.py:507-551 | `code_substitution` emits only target entries of its direction. |
| SubstitutionCode.NothingMatches | src/urh/signalprocessing/encoding.py:529-536 | Input where no window is a source entry gives no output and one error per position. |
| SubstitutionCode.AllAmbiguous | src/urh/signalprocessing/encoding.py:529-549 | When every source entry is listed twice, nothing is emitted. |
| SubstitutionCode.OccursOnce | src/urh/signalprocessing/encoding.py:531-533 | In a table of distinct equal-width entries, each entry occurs once and is found at its own index. |
| SubstitutionCode.SubstituteShift | src/urh/signalprocessing/encoding.py:529-549 | The scan from a position depends only on the bits from that position on. |
| SubstitutionCode.TranslateWords | src/urh/signalprocessing/encoding.py:529-549 | A concatenation of source entries becomes the matching target entries, with no error. |
| SubstitutionCode.SubstitutionRoundTrip | src/urh/signalprocessing/encoding.py:507-551 | With distinct equal-width entries on both sides, encoding maps target words to source words and decoding maps them back, with no error. |
| SubstitutionCode.ParseEntries | src/urh/signalprocessing/encoding.py:161-167 | A parsed table has as many targets as sources. |
| SubstitutionCode.ParseSubst | src/urh/signalprocessing/encoding.py:158-167 | A parsed table has as many targets as sources. |
| SubstitutionCode.SplitEntries | src/urh/signalprocessing/encoding.py:169-177 | The printed table splits at ';' into one "src:dst" entry per pair, plus an empty last part. |
| SubstitutionCode.SplitItem | src/urh/signalprocessing/encoding.py:164 | A printed entry splits at ':' into its two bit texts. |
| SubstitutionCode.ParseEntriesOfPrinted | src/urh/signalprocessing/encoding.py:161-167 | The parser rebuilds the table from printed entries. |
| SubstitutionCode.PrintSubst | src/urh/signalprocessing/encoding.py:169-177 | Parsing the printed form of a paired table gives back the table; an unpaired table prints as the empty text. |
| SubstitutionCode.DefaultSubstTable | src/urh/signalprocessing/encoding.py:111 | The default text "0:1;1:0;" is the table that swaps 0 and 1. |
| LfsrKeystream.Taps | src/urh/signalprocessing/encoding.py:250-251 | There is one tap per polynomial bit, for register slots 1 to p. |
| LfsrKeystream.FeedbackLoopParity | src/urh/signalprocessing/encoding.py:249-257 | Each set tap flips the loop's `first_bit`, which starts unset. |
| LfsrKeystream.Feedback | src/urh/signalprocessing/encoding.py:249-257 | The feedback bit is the odd parity of the set taps. |
| LfsrKeystream.Clock | src/urh/signalprocessing/encoding.py:259-261 | A clock keeps the register length. |
| LfsrKeystream.ClockN | src/urh/signalprocessing/encoding.py:247-261 | Any number of clocks keeps the register length. |
| LfsrKeystream.ClockNShifts | src/urh/signalprocessing/encoding.py:259-261 | After n clocks, slot j+n holds what slot j held: bits move to higher slots. |
| LfsrKeystream.InitialRegister | src/urh/signalprocessing/encoding.py:241-246 | The fresh register has one slot more than the polynomial. |
| LfsrKeystream.KeystreamFrom | src/urh/signalprocessing/encoding.py:311-312 | Each further `lfsr(8)` call adds p keystream bits. |
| LfsrKeystream.Keystream | src/urh/signalprocessing/encoding.py:309-312 | For m bits to whiten, the keystream has p·(1+⌈m/8⌉) bits. |
| LfsrKeystream.KeystreamStartsWithOnes | src/urh/signalprocessing/encoding.py:245-262 | The keystream opens with the p ones of the fresh register. In the next block, the bits from index 7 on are still ones. |
| DataWhitening.Xor | src/urh/signalprocessing/encoding.py:320-321 | The xor keeps the length of the data. |
| DataWhitening.XorInvolution | src/urh/signalprocessing/encoding.py:320-337 | Xoring the same keystream twice gives back the data. |
| DataWhitening.XorRange | src/urh/signalprocessing/encoding.py:320-321 | Xoring a region keeps the length of the buffer. |
| DataWhitening.XorRangeInvolution | src/urh/signalprocessing/encoding.py:320-337 | Xoring the same region twice gives back the buffer. |
| DataWhitening.XorRangePrefix | src/urh/signalprocessing/encoding.py:320-321 | Bits before the region are untouched. |
| DataWhitening.PySlice | src/urh/signalprocessing/encoding.py:358 | A slice whose end is before its start is empty. |
| DataWhitening.CropEnd | src/urh/signalprocessing/encoding.py:270-273 | At most the last bit is cropped. |
| DataWhitening.SyncSearchFrom | src/urh/signalprocessing/encoding.py:284-298 | The start is 0 (not found) or lies after a whole sync word and below the end. |
| DataWhitening.SyncSearchFromMisses | src/urh/signalprocessing/encoding.py:284-298 | The search reports "not found" exactly when no position below len − len(sync) holds the sync word. |
| DataWhitening.SyncSearchFromFinds | src/urh/signalprocessing/encoding.py:284-298 | A found start is just past the first sync word occurrence. |
| DataWhitening.FirstSync | src/urh/signalprocessing/encoding.py:284-298 | If the first occurrence is at k, whitening starts at k + len(sync). |
| DataWhitening.CrcStep | src/urh/signalprocessing/encoding.py:323-332 | The CRC step keeps the buffer length. |
| DataWhitening.ExitCode | src/urh/signalprocessing/encoding.py:264-316 | The early-exit code is one of 0, 404, 31337 and 31338. |
| DataWhitening.ExitCodeMeaning | src/urh/signalprocessing/encoding.py:270-316 | 31337 exactly when the input, polynomial or sync is empty. 404 exactly when decoding finds no sync at any position below len − len(sync), so encoding never gives 404. 31338 exactly when p·(1+⌈m/8⌉) < m. |
| DataWhitening.Whiten | src/urh/signalprocessing/encoding.py:264-358 | The returned code is the exit code. On 31337 and 404 the cropped input comes back unchanged. On 31338 the buffer comes back unwhitened. |
| DataWhitening.EncodeWith | src/urh/signalprocessing/encoding.py:323-356 | With the default flags, encoding gives preamble ++ sync ++ W ++ [last W]. W is the payload with its CRC xored into the last 16 bits, then whitened. |
| DataWhitening.DecodeRegionDefault | src/urh/signalprocessing/encoding.py:318-346 | Decoding with the default flags unwhitens the region, xors the CRC into its last 16 bits, and returns the region. |
| DataWhitening.EncodedFrame | src/urh/signalprocessing/encoding.py:348-356 | The encoded frame is len(P)+len(preamble)+len(sync)+1 long, starts with preamble and sync, and ends with a duplicated bit. |
| DataWhitening.TransformRoundTrip | src/urh/signalprocessing/encoding.py:318-358 | Decoding the region of an encoded frame with the same keystream gives back the payload. |
| DataWhitening.FrameSyncFound | src/urh/signalprocessing/encoding.py:270-298 | Decoding an encoded frame crops the duplicate bit and finds the sync word right after the preamble. |
| DataWhitening.EncodeRuns | src/urh/signalprocessing/encoding.py:276-358 | A payload of at least 16 bits, with no sync word where the encoder looks and a long enough keystream, encodes with code 0. |
| DataWhitening.WhitenProceeds | src/urh/signalprocessing/encoding.py:276-358 | When the exit code is 0, the run is the region transform with the register's keystream. |
| DataWhitening.WhitenDecodes | src/urh/signalprocessing/encoding.py:264-358 | A decode that passes the exits is the region decode from the found sync. |
| DataWhitening.FrameAccepted | src/urh/signalprocessing/encoding.py:270-316 | An encoded frame passes every early exit when decoded. |
| DataWhitening.DecodeFrame | src/urh/signalprocessing/encoding.py:264-358 | Decoding an encoded frame is the region decode after preamble and sync. |
| DataWhitening.WhiteningFrames | src/urh/signalprocessing/encoding.py:264-358 | Under the round-trip conditions, encoding succeeds and frames the payload behind preamble and sync. |
| DataWhitening.WhiteningRoundTrip | src/urh/signalprocessing/encoding.py:264-358 | Under the round-trip conditions, decode(encode(P)) == (P, 0). |
| DataWhitening.DefaultSyncNotInPreamble | src/urh/signalprocessing/encoding.py:30-39 | The default sync word does not occur inside the default preamble. |
| DataWhitening.DefaultKeystreamLongEnough | src/urh/signalprocessing/encoding.py:309-316 | The default 8-bit polynomial always yields enough keystream, so it never gives 31338. |
| DataWhitening.DefaultWhiteningRoundTrip | src/urh/signalprocessing/encoding.py:29-45 | With the constructor's settings, a payload of at least 16 bits with no sync word where the encoder looks encodes with code 0 to len(P)+65 bits, and decodes back to (P, 0). |
| ChainConfig.ClassifyMeaning | src/urh/signalprocessing/encoding.py:75-119 | A token names a stage exactly when that stage's keyword occurs in it and no keyword earlier in the `set_chain` order does. It names nothing when no keyword occurs. |
| ChainConfig.ParamOf | src/urh/signalprocessing/encoding.py:84-116 | A parameter entry has the kind its stage needs: a bit list for carrier, a paired table for substitution, text otherwise. Only substitution can fail. |
| ChainConfig.Cat | src/urh/signalprocessing/encoding.py:69-119 | Two scanned parts join only when both succeeded. |
| ChainConfig.Scan | src/urh/signalprocessing/encoding.py:74-119 | The token scan builds a list of stage slots, each parameterised stage followed by its parameter. |
| ChainConfig.SetChain | src/urh/signalprocessing/encoding.py:69-119 | An empty token list leaves the chain as it was. Otherwise the chain is the name followed by well-formed slots. |
| ChainConfig.Piece | src/urh/signalprocessing/encoding.py:69-119 | A stage occupies one chain entry, or two when it carries a parameter. |
| ChainConfig.Stages | src/urh/signalprocessing/encoding.py:121-156 | Reading the slots as stages gives stages whose parameters fit. |
| ChainConfig.FlattenStages | src/urh/signalprocessing/encoding.py:121-156 | Flattening the stages read from the slots gives back the slots. |
| ChainConfig.FlattenAppend | src/urh/signalprocessing/encoding.py:121-156 | Flattening distributes over concatenation. |
| ChainConfig.ParamOfRendered | src/urh/signalprocessing/encoding.py:94-149 | Reading back a written parameter gives the same entry. |
| ChainConfig.ScanRender | src/urh/signalprocessing/encoding.py:69-156 | Scanning the written slots gives back the slots. |
| ChainConfig.Render | src/urh/signalprocessing/encoding.py:123-154 | One token per chain entry: a stage keyword, or the printed parameter after it. |
| ChainConfig.GetChain | src/urh/signalprocessing/encoding.py:120-156 | The token list has one token per chain entry and starts with the name. |
| ChainConfig.ChainTextRoundTrip | src/urh/signalprocessing/encoding.py:69-156 | For any chain, `set_chain(get_chain(c))` rebuilds c. |
| ChainConfig.RenderedParamOf | src/urh/signalprocessing/encoding.py:94-149 | A canonical parameter token comes back verbatim. |
| ChainConfig.RenderScan | src/urh/signalprocessing/encoding.py:69-156 | A canonical token list scans, and writing the result back gives the same tokens. |
| ChainConfig.TextChainRoundTrip | src/urh/signalprocessing/encoding.py:69-156 | For canonical tokens, `get_chain` after `set_chain` returns the tokens unchanged. |
| ChainConfig.CarrierTokenNormalised | src/urh/signalprocessing/encoding.py:94-141 | A carrier token comes back with every character other than '1' written as '0'. |
| ChainConfig.ScanAppend | src/urh/signalprocessing/encoding.py:74-119 | Scanning a complete prefix and then the rest is the same as scanning the whole list. |
| ChainConfig.ScanSkips | src/urh/signalprocessing/encoding.py:75-119 | A token that names no stage is dropped. |
| ChainConfig.CatAssoc | src/urh/signalprocessing/encoding.py:69-119 | Joining scanned parts is associative. |
| ChainConfig.DropUnrecognised | src/urh/signalprocessing/encoding.py:69-119 | Removing an unrecognised token between complete stages does not change the chain. |
| ChainConfig.CanonicalComplete | src/urh/signalprocessing/encoding.py:74-119 | A canonical token list has no dangling parameterised keyword. |
| ChainConfig.DefaultSubstPrinted | src/urh/signalprocessing/encoding.py:169-177 | The default substitution table prints as "0:1;1:0;". |
| ChainConfig.DefaultTextRoundTrip | src/urh/signalprocessing/encoding.py:86-118 | Each default parameter reads and writes back verbatim. |
| ChainConfig.DefaultSubstRoundTrip | src/urh/signalprocessing/encoding.py:105-111 | The default substitution text reads and writes back verbatim. |
| ChainConfig.TrailingDefault | src/urh/signalprocessing/encoding.py:82-118 | A parameterised keyword as the last token gets its default: "2", "0xe9cae9ca;0x21;0xe", "1", "0:1;1:0;" or "./;./". |
| ChainConfig.HeadWidth | src/urh/signalprocessing/encoding.py:74-119 | The first slot's tokens can be split off, leaving a canonical rest. |
| ChainConfig.CanonicalHead | src/urh/signalprocessing/encoding.py:74-119 | The first slot's tokens followed by canonical tokens are canonical. |
| ChainConfig.CanonicalAppend | src/urh/signalprocessing/encoding.py:74-119 | Concatenated canonical token lists are canonical. |
| ChainWalk.Reverse | src/urh/signalprocessing/encoding.py:189-192 | Element k of the reversed stages is element n−1−k. |
| ChainWalk.SlotsParam | src/urh/signalprocessing/encoding.py:201-225 | A parameterised stage's entry is followed by a fitting parameter at i+1. |
| ChainWalk.StageAt | src/urh/signalprocessing/encoding.py:196-225 | The stage at an operation entry carries the entry after it as its parameter. |
| ChainWalk.SkipUp | src/urh/signalprocessing/encoding.py:197-199 | Skipping ahead stops at an operation entry or at the last entry. |
| ChainWalk.SkipDown | src/urh/signalprocessing/encoding.py:197-199 | Skipping back stops at an operation entry or at the first entry. |
| ChainWalk.ChainStages | src/urh/signalprocessing/encoding.py:179-238 | The chain's stages all fit their parameters. |
| ChainWalk.Schedule | src/urh/signalprocessing/encoding.py:185-192 | The execution order consists of fitting stages. |
| ChainWalk.UpSkip | src/urh/signalprocessing/encoding.py:197-199 | Walking up passes over a parameter entry. |
| ChainWalk.UpAtStep | src/urh/signalprocessing/encoding.py:195-234 | Walking up at an operation entry runs that stage, then walks on. |
| ChainWalk.FoldFirst | src/urh/signalprocessing/encoding.py:195-234 | A fold runs its first stage, then folds the rest. |
| ChainWalk.StagePosition | src/urh/signalprocessing/encoding.py:179-238 | Stage k's entries sit between the entries of the stages before and after it. |
| ChainWalk.StageAtPosition | src/urh/signalprocessing/encoding.py:179-238 | The chain entry where stage k starts is stage k. |
| ChainWalk.UpPastStage | src/urh/signalprocessing/encoding.py:195-234 | Walking up from stage k's entry runs stage k, then continues at stage k+1. |
| ChainWalk.UpIsFold | src/urh/signalprocessing/encoding.py:185-234 | The ascending walk from stage k runs exactly stages k, k+1, … in order. |
| ChainWalk.DownReaches | src/urh/signalprocessing/encoding.py:189-199 | Skipping back from the end of stage k−1 lands on stage k−1's operation entry. |
| ChainWalk.DownIsFold | src/urh/signalprocessing/encoding.py:189-234 | The descending walk runs the stages in reverse order. |
| ChainWalk.WalkIsFold | src/urh/signalprocessing/encoding.py:185-234 | `code` visits the stages first to last when decoding and last to first when encoding. |
| ChainWalk.FoldAppend | src/urh/signalprocessing/encoding.py:195-234 | Running a + b is running a, then b on the result, and stops at the first fault. |
| ChainWalk.ReverseAppend | src/urh/signalprocessing/encoding.py:189-192 | Reversal turns a + b into rev(b) + rev(a). |
| ChainWalk.FoldKeeps | src/urh/signalprocessing/encoding.py:195-234 | A property every stage keeps holds after any run of stages. |
| CodecEngine.LoadExternal | src/urh/signalprocessing/encoding.py:209-213 | An empty parameter clears both commands. Otherwise it must hold exactly one ';', and decoder ';' encoder gives back the text. Nothing else changes. |
| CodecEngine.LoadWhitening | src/urh/signalprocessing/encoding.py:214-225 | A parameter without exactly two ';' changes nothing. Only the whitening settings change, and the preamble is never replaced. |
| CodecEngine.Load | src/urh/signalprocessing/encoding.py:201-225 | Stages without parameters leave the state alone. Redundancy loads `int()` of its text and fails exactly when that does. Carrier loads all-zero bits of the carrier's length. |
| CodecEngine.Apply | src/urh/signalprocessing/encoding.py:228-230 | A stage's error count is never negative. |
| CodecEngine.Perform | src/urh/signalprocessing/encoding.py:201-234 | A stage never lowers the error sum. Empty bits stay empty and add nothing. |
| CodecEngine.Finish | src/urh/signalprocessing/encoding.py:236-237 | Only `symbol_len` is updated after the run. |
| CodecEngine.Code | src/urh/signalprocessing/encoding.py:179-238 | The error sum is non-negative. After non-empty input, `symbol_len` is ⌊len(output)/len(input)⌋. |
| CodecEngine.Encode | src/urh/signalprocessing/encoding.py:179-238 | A name-only chain returns the input; empty input gives empty output. |
| CodecEngine.Decode | src/urh/signalprocessing/encoding.py:179-238 | A name-only chain returns the input; empty input gives empty output. |
| CodecEngine.Analyze | src/urh/signalprocessing/encoding.py:179-238 | The error sum is never negative, and is 0 for a name-only chain or empty input. |
| CodecEngine.TrivialRuns | src/urh/signalprocessing/encoding.py:179-238 | A name-only chain runs without error and returns the input; a run on empty input yields empty output and no errors. |
| CodecEngine.RunnerIsPerform | src/urh/signalprocessing/encoding.py:195-234 | On fitting stages and a consistent state, the runner is the stage step. |
| CodecEngine.SaneKept | src/urh/signalprocessing/encoding.py:195-234 | Every stage keeps the state consistent and the error sum non-negative. |
| CodecEngine.StageRoundTrip | src/urh/signalprocessing/encoding.py:375-505 | A lossless stage's decoding undoes its encoding, whatever the settings and error sums. |
| CodecEngine.FoldRoundTrip | src/urh/signalprocessing/encoding.py:185-234 | Decoding in order undoes encoding in reverse order for lossless stages. |
| CodecEngine.ChainRoundTrip | src/urh/signalprocessing/encoding.py:179-238 | For a chain of lossless stages, `decode(encode(x)) == x`. The lossless stages are invert, differential, bit order, edge, redundancy with m > 1 and a non-empty carrier. |
| CodecEngine.CodeRunsSchedule | src/urh/signalprocessing/encoding.py:179-238 | `code` is the fold of the stage steps over the schedule, then the `symbol_len` update. |
| CodecEngine.NameOnlyChain | src/urh/signalprocessing/encoding.py:179-238 | A name-only chain returns the input with no errors and `symbol_len` 1. |
| CodecEngine.IdleKept | src/urh/signalprocessing/encoding.py:228-234 | Empty bits with no errors stay so through any stage. |
| CodecEngine.EmptyInputSkips | src/urh/signalprocessing/encoding.py:228-234 | Empty input gives empty output with no errors. |
| CodecEngine.CarrierPatternIgnored | src/urh/signalprocessing/encoding.py:204-205 | In a chain run only the carrier's length matters: the carrier used is all zeros. |
| CodecEngine.DefaultWhiteningParts | src/urh/signalprocessing/encoding.py:214-216 | The default whitening text has two ';' and splits into sync, polynomial and options. |
| CodecEngine.SyncHex | src/urh/signalprocessing/encoding.py:214-218 | "0xe9cae9ca" parses to the constructor's sync bytes. |
| CodecEngine.PolynomialHex | src/urh/signalprocessing/encoding.py:214-219 | "0x21" parses to the constructor's polynomial. |
| CodecEngine.OptionsHex | src/urh/signalprocessing/encoding.py:220-225 | "0xe" parses to 1110: apply CRC, strip preamble, strip sync, keep CRC. |
| CodecEngine.LoadWhiteningParts | src/urh/signalprocessing/encoding.py:214-225 | A parameter of three non-empty parts loads sync and polynomial from hex and takes the first four option bits as the flags. |
| CodecEngine.DefaultWhiteningParam | src/urh/signalprocessing/encoding.py:214-225 | Loading the default whitening text gives exactly the constructor's settings. |
| BlockBreak.TrailingZeros | src/urh/plugins/BlockBreak/BlockBreakAction.py:43-50 | The final zero counter is at most the length. |
| BlockBreak.TrailingZerosRun | src/urh/plugins/BlockBreak/BlockBreakAction.py:43-50 | The trailing zeros form a maximal zero run ending at the end. |
| BlockBreak.TrailingZerosExact | src/urh/plugins/BlockBreak/BlockBreakAction.py:43-50 | A maximal run ending at the end is exactly the trailing zeros. |
| BlockBreak.ZeroSeqIndexes | src/urh/plugins/BlockBreak/BlockBreakAction.py:34-55 | As written: [] when following_zeros > len. Otherwise the closed runs of at least following_zeros zeros, then the pair (len−1−f, len−1) when the trailing zeros are at least f. |
| BlockBreak.ClosedSound | src/urh/plugins/BlockBreak/BlockBreakAction.py:43-50 | Every pair emitted in the loop is a maximal zero run: block[s:e] all '0', block[e] ≠ '0', s = 0 or block[s−1] ≠ '0', and e − s ≥ f. |
| BlockBreak.ClosedComplete | src/urh/plugins/BlockBreak/BlockBreakAction.py:43-50 | Every maximal run of at least f zeros closed by a non-zero is emitted. |
| BlockBreak.ClosedOrdered | src/urh/plugins/BlockBreak/BlockBreakAction.py:43-50 | Loop pairs are left to right, and each ends before the next starts. |
| BlockBreak.TrailingPairInsideRun | src/urh/plugins/BlockBreak/BlockBreakAction.py:52-53 | When the trailing run is longer than f, the trailing pair lies inside it, f long. |
| BlockBreak.TrailingPairOffByOne | src/urh/plugins/BlockBreak/BlockBreakAction.py:52-53 | For "100" with f = 2 the result is [(0, 2)], whose start is the '1'. |
| BlockBreak.TrailingPairRepeats | src/urh/plugins/BlockBreak/BlockBreakAction.py:52-53 | With following_zeros 0, "1" gives [(0, 0), (0, 0)]: the trailing pair repeats the pair the loop closed. |
| BlockBreak.RunsSound | src/urh/plugins/BlockBreak/BlockBreakAction.py:34-55 | Corrected: every pair is a maximal run of at least f zeros. |
| BlockBreak.RunsComplete | src/urh/plugins/BlockBreak/BlockBreakAction.py:34-55 | Corrected: every maximal run of at least f zeros is reported, the trailing one included. |
| BlockBreak.RunsOrdered | src/urh/plugins/BlockBreak/BlockBreakAction.py:34-55 | Corrected: the pairs are strictly left to right and disjoint. |
| BlockBreak.ZeroRunIndexes | src/urh/plugins/BlockBreak/BlockBreakAction.py:34-55 | The corrected loop returns exactly the maximal runs of at least f zeros, left to right. |
| BlockBreak.PyIndex | src/urh/plugins/BlockBreak/BlockBreakAction.py:21-24 | Python's slice index: negative counts from the end, and it is clamped to [0, len]. |
| BlockBreak.Redo | src/urh/plugins/BlockBreak/BlockBreakAction.py:19-29 | The split succeeds exactly for a block number Python can index, and the list grows by one. |
| BlockBreak.RedoSplits | src/urh/plugins/BlockBreak/BlockBreakAction.py:19-29 | Block nr becomes two halves in place, and all other blocks are unchanged. The halves' bits concatenate to the original. The first half has pause 0 and the second keeps the pause. Both have rssi 0, the analyser's alignment, and the original decoder, label set and bit length. |
| BlockBreak.RedoFromEnd | src/urh/plugins/BlockBreak/BlockBreakAction.py:19-29 | A negative block number other than −1 splits the block it counts from the end. |
| BlockBreak.RedoLastMovesSecondHalf | src/urh/plugins/BlockBreak/BlockBreakAction.py:28-29 | With block number −1, the second half is inserted at index 0 and the first half replaces the last block. |
| BlockBreak.AllBitsAppend | src/urh/plugins/BlockBreak/BlockBreakAction.py:19-29 | The bits of a + b are the bits of a, then of b. |
| BlockBreak.SplitKeepsBits | src/urh/plugins/BlockBreak/BlockBreakAction.py:19-29 | Splitting a block in place keeps the concatenated bits of the list. |
| BlockBreak.RedoKeepsBits | src/urh/plugins/BlockBreak/BlockBreakAction.py:19-29 | `redo` keeps the concatenated bits of the whole block list. |
| ProtocolTable.Find | src/urh/models/TableModel.py:237-240 | `find` returns the first occurrence at or after `start`, or −1 when there is none. |
| ProtocolTable.FindAll | src/urh/models/TableModel.py:237-240 | The `find` loop reports every occurrence in a row, overlapping ones included, in increasing order. |
| ProtocolTable.FindProtocolValue | src/urh/models/TableModel.py:226-242 | An empty value gives [] and 0. Each result is an occurrence in a visible row. Every such occurrence is reported. Results are in row-major order, and the count is their number. |
| ProtocolTable.MaxVisibleIsMax | src/urh/models/TableModel.py:85-89 | The column count bounds every visible row, is attained by one, and is 0 when no row is visible. |
| ProtocolTable.Update | src/urh/models/TableModel.py:85-101 | With blocks: row count = number of blocks, column count = the longest visible row (0 if all are hidden), and the stored search runs again: every occurrence of the stored value in a visible row, in row-major order, and none for an empty value. Without blocks: both counts 0, nothing displayed, and the old results kept. |

## Left out

- `run_command` (src/urh/signalprocessing/encoding.py:360-373) starts a subprocess. It is the `run` function in `CodecEngine.Env`, uninterpreted.
- The CRC engine `crc_generic` is not part of this model. It is the `crc` function in `CodecEngine.Env`, returning 16 bits.
- The keyword constants `constants.DECODING_*` are not part of this model. They are the `ChainConfig.Vocabulary` parameter. The chain round trips assume each keyword classifies as its own stage (`ChainConfig.Recognised`).
- The redundancy default is the integer 2 in `set_chain`. The model stores the text "2", which `int()` reads as the same value.
- Text.ParseInt: reads only ASCII decimal digits with an optional sign. Python's `int()` also accepts surrounding whitespace (`int(" 7")`), digit-group underscores (`int("1_0")`) and Unicode decimal digits (`int("٣")`); on those inputs the model reports a bad integer where the source goes on.
- HexCodec.HexToBits: reads an optional 0x/0X prefix and ASCII hex digits only. Through `int(…, 16)` the source also accepts surrounding whitespace (`" ff"`), underscores, a sign (`"-1"`) and Unicode digits; on those inputs the model gives no bits.
- `hex2str` (encoding.py:620-623) and the dotted form of `bit2str` are display helpers, and are left out.
- The loop that overwrites non-bool list items with True (encoding.py:279-282) does nothing on `seq<bool>`.
- `symbol_len` is a float division in the source. The model uses integer division, and the getter truncates with `int()` anyway.
- Python exceptions and endless loops become a `CodecEngine.Fault`, and the run stops there. The source would leave the interpreter's fields half-updated; those partial updates are not modelled. These faults are:
  - a non-integer redundancy text (`int()` raises);
  - an external parameter that is not "decoder;encoder" (the tuple unpacking raises);
  - an endless substitution loop.
- CodecEngine.LoadWhitening: a parameter with two ';' and an empty part does not raise in the source. The source stores the raw text parts as sync and polynomial and goes on with those strings. The model stops with `UnparsedWhitening` instead. Because parameters are loaded before the empty-bits check, this also happens on empty input, where the source returns `([], 0)`.
- CodecEngine.Apply: a whitening region too short for the CRC block does not raise in the source for most lengths. The CRC loop's negative indices read and write from the end of the list. The model stops with `WrappedIndex` instead.
- DataWhitening.Whiten requires the CRC block to lie inside the buffer (`CrcBlockInRange`). For shorter regions the source indexes from the end of the list; that is not modelled.
- `apply_data_whitening` mutates its argument in place, and `lfsr` keeps its register in the object. The model is pure and returns new values.
- CodecEngine.ChainRoundTrip covers only the lossless stages. Whitening, substitution and external stages have their own round trips (DataWhitening.WhiteningRoundTrip, SubstitutionCode.SubstitutionRoundTrip), which hold only under their own conditions.
- CodecEngine.EmptyInputSkips does not state `symbol_len`: with empty input, `code` leaves it as it was, so there is nothing to state.
- SubstitutionCode.SubstituteFrom: a window that matches several sources emits nothing, counts no error and advances by the item size. This follows the code, where the `cnt > 1` branch is commented out. SubstitutionCode.ClassifyMeaning states the per-window behaviour and SubstitutionCode.AllAmbiguous its effect; the round trip is proved only for tables of distinct entries.
- `BlockBreakAction.undo` restores a copy through `revert_to`, which is not part of this model.
- The display text of the table (`proto_view`, `decode`, and the bit, hex and ASCII views) comes from the protocol analyser, which is not part of this model. The rows are a parameter.
- The Qt parts of `TableModel.update` are left out: diffs, symbols, colours, fonts, `layoutChanged` and `locked`.
- BlockBreak.ZeroSeqIndexes: ordering is proved for the pairs emitted inside the loop (BlockBreak.ClosedOrdered), not for the trailing pair. When the trailing run is exactly f long, the off-by-one trailing pair starts one position early and can overlap the previous run's end. With f = 0 it can also repeat the last pair: "1" gives [(0, 0), (0, 0)] (BlockBreak.TrailingPairRepeats).
- ChainConfig.GetChain: the source raises IndexError on an empty chain (the constructor's default chain is empty and `name` reads `chain[0]`); the model requires a non-empty chain and does not model that error.

## Findings

| source | as written | input that shows it | evidently intended | confidence | as-written member | corrected member |
|---|---|---|---|---|---|---|
| src/urh/plugins/BlockBreak/BlockBreakAction.py:52-53 | The trailing zero run is reported as (len−1−following_zeros, len−1). | block "100", following_zeros 2: the result is [(0, 2)], whose start is the '1' and which misses the last '0'. With "00" and 2 it is (−1, 1). With "1" and 0 the result is [(0, 0), (0, 0)], repeating a pair (BlockBreak.TrailingPairRepeats). | The trailing run is reported like the others, as (len−zero_counter, len). | medium-high, not executed | BlockBreak.TrailingPairOffByOne | BlockBreak.ZeroRunIndexes |
