# Verified model of the WaCalls media stack

WaCalls places and receives calls; this project models the parts of its media stack whose
correctness is not visible from one function, and proves what they promise, for every input, run
or stream:

* **Speech codec, entropy side.** `CodingInterval` is arithmetic coding on exact integers.
  `RangeEncoding` and `RangeDecoding` are the byte-oriented coder classes with their 31-bit window,
  held-back byte and delayed carries, proved to follow it. `CdfTables`, `PulseVectors`, `PulseTapes`,
  `PulseEncoding`, `PulseDecoding`, `PulseRoundTrip`, `FrameTapes`, `FrameCoding` and
  `FrameRoundTrip` build the tables, the pulse parametrisation and the LSF, pulse, gain and LTP blocks
  on top, up to a whole packet of three internal frames.
* **Speech codec, analysis side.** `PulseForms`, `PulseEnergy`, `PulseScores` and `PulseMerit`
  state what the fixed-codebook searches optimise; `SearchTools`, `GreedySearch`, `BeamSums`, `BeamStates`,
  `BeamSteps` and `BeamSearch` are the two searches with their incremental updates. `Dft` and `Fft` are the
  mixed-radix transform, `RootSearch` the LPC root search, `SurvivorAllocator` the beam widths.
* **Transport.** `Rtp`, `ReplayWindow`, `Srtp` and `SrtpRuns` (SRTP, RFC 3711), `AnnexB` and `H264`
  (RFC 6184), `RtcpReceiver` (RFC 3550), `InboundGate` (SSRC lock and relay copies) and `Stun`
  (RFC 5389).
* **History.** `History` is keyset paging over a table that changes between the pages.

Code that updates state in place is a class or a method with loops, tied by its `ensures` to a
specification that does not share its shortcuts: an interval of unbounded integers, a set of accepted
indices, a sum over all samples, a sorted list. Floating point is exact: the pulse searches work over
`real`, the transform over any commutative ring with a root of unity. Cryptographic and checksum
functions, clocks and the database are parameters. Every module verifies on its own imports;
`dafny verify dfyconfig.toml` checks all of them.

Where the code does something its comments do not say, the model follows the code:

* The greedy two-rate pulse search lets the second rate hear of pulse k while k - 1 is within its limit.
  `GreedySearch.FecLimit` says exactly when that rate sends one pulse more than its limit (never two
  more), `GreedySearch.OneTooMany` is an input on which it does, and a main limit within the second
  one rules it out (`GreedySearch.FcbSearch`). The beam search keeps the limit, but its second rate
  never hears of the last of several rounds (`BeamSearch.FcbSearchDeldec`).
* For values of 65536 and more the last step of the root search is cut off instead of rounded
  (`RootSearch.FarIsCutOff`).
* The last step of the root search rounds one unit beyond its grid cell for the end values -1 and 0, and
  only for those (`RootSearch.RootBeyondCell`).
* Jitter takes arrival and timestamp differences modulo 2^32 before subtracting them, so a packet that
  its successor overtook counts as almost 2^32 clock units (`RtcpReceiver.OvertakenPacket`);
  `RtcpReceiver.DeviationExact` says when the deviation is the true one.
* A survivor budget below two leaves pulses without a survivor; one between two and the pulse count still
  gives every pulse one (`SurvivorAllocator.DistributeFcbSurv`).

## Model

| member | source | states |
|---|---|---|
| CodingInterval.InsideBeforeRun | internal/voip/codec/mlow/rangecoder.go:385-410 | A number inside the interval that a whole symbol sequence leads to was inside every earlier interval, and inside the part of each symbol when it was coded. |
| RangeEncoding.RangeEncoder.Encode | internal/voip/codec/mlow/rangecoder.go:342-410 | Whatever carries are pending, one symbol moves the encoder's interval exactly as exact arithmetic coding does; a zero total is refused. |
| RangeEncoding.RangeEncoder.Done | internal/voip/codec/mlow/rangecoder.go:509-546 | Flushing succeeds exactly when no symbol was refused and the packet fits the buffer; then the bytes written, followed by anything at all, spell a number inside the interval of everything encoded, and the rest of the buffer is zero. |
| RangeEncoding.FlushShortest | internal/voip/codec/mlow/rangecoder.go:509-518 | No value with fewer significant bits than the one flushed would do, whatever follows it. |
| RangeDecoding.RangeDecoder.DecodeCDF | internal/voip/codec/mlow/rangecoder.go:197-221 | On any stream the symbol read is the only one whose part of the interval holds the stream, and the decoder's interval moves to it. |
| RangeDecoding.RangeDecoder.DecodeRawSymbol | internal/voip/codec/mlow/rangecoder.go:128-133 | The same for a raw symbol of up to 23 bits, the widest that every normalised range covers. |
| CdfTables.CmfShape | internal/voip/codec/mlow/cc_tables.go:100-114 | For every weight table with positive sum, the normalised table starts at 0, increases strictly and ends at most at 32767. |
| CdfTables.CmfFills | internal/voip/codec/mlow/cc_tables.go:100-114 | The table fills the 15-bit range but for less than one slot per symbol. |
| CdfTables.WeightIsSquare | internal/voip/codec/mlow/celp_enc.go:250-258 | A delta's weight is the square of the delta plus one, in 16 bits. |
| CdfTables.CelpDcmfToCmf | internal/voip/codec/mlow/celp_enc.go:250-266 | The in-place expansion in 32-bit steps builds that table for every non-empty delta table of at most 32767 entries, no step overflowing 16 or 32 bits. |
| CdfTables.LsfDcmfToCmf | internal/voip/codec/mlow/lsf_seed.go:328-349 | The 64-bit builder gives the same table from the same deltas. |
| CdfTables.PdfToCmf | internal/voip/codec/mlow/cc_tables.go:100-114 | The builder over 32-bit weights gives the normalised table of those weights. |
| PulseVectors.BuildPulseParams | internal/voip/codec/mlow/analysis.go:532-609 | Counts, run lengths and packed sign words of a signed pulse vector are those of its unit pulses in order. |
| PulseVectors.DescribesOne | internal/voip/codec/mlow/analysis.go:532-609 | No two vectors have the same parameters, whatever their magnitudes. |
| PulseTapes.TriMonotone | internal/voip/codec/mlow/encoder.go:348-380 | The triangular count prior, in wrapping 32-bit arithmetic, increases strictly over all counts. |
| PulseTapes.RunEntry | internal/voip/codec/mlow/encoder.go:411-417 | A run is coded by the end of the table for the pulses left, of the smallest table that covers the samples left. |
| PulseEncoding.EncodeMagnitudes | internal/voip/codec/mlow/encoder.go:398-427 | The replay loop consumes exactly all recorded run lengths, keeps at least one sample left, and every run lies inside its table window. |
| PulseEncoding.EncodePulses | internal/voip/codec/mlow/encoder.go:348-441 | A pulse vector of at most 40 pulses per subframe is coded as its symbol sequence, and never refused. |
| PulseRoundTrip.DecodePulses | internal/voip/codec/mlow/pulse.go:34-207 | On any stream that follows the symbols of a pulse vector, the decoder returns exactly that vector and its subframe counts, and stands where those symbols end. |
| FrameCoding.EncodeLsf | internal/voip/codec/mlow/encoder.go:299-343 | An LSF block is refused exactly when a table does not carry one of its symbols (grid 16 without a match among them); otherwise its symbols are coded, the selector by the row of (first frame, unvoiced or voiced frame before) and the grid by the table of (match, voiced); gain and filter predictors are kept on a match and cleared otherwise. |
| FrameCoding.DecodeLsf | internal/voip/codec/mlow/lsf.go:93-155 | On any stream selector and grid are the only symbols of those same tables whose parts hold the stream, all indices stay inside the tables and the stream is read exactly as the block returned is coded; on one that follows an LSF block that block comes back, with the same match and reset transition. |
| FrameCoding.DecodeGains | internal/voip/codec/mlow/gains.go:18-59 | Both gain indices, the four quantised gains and the residuals of subframes with pulses come back, the residual table being the slice both sides derive from the gains. |
| FrameCoding.EncodeLtp | internal/voip/codec/mlow/encoder.go:483-515 | The gains and filters of a voiced block are coded with tables that follow from the predictor alone, and the predictor ends as the block leaves it. |
| FrameCoding.DecodeLtp | internal/voip/codec/mlow/pitch.go:36-73 | On any stream gains and filters stay inside their tables; on one that follows a voiced block, the decoder selects the encoder's table at every read, recovers every gain, the filters of subframes with pulses and -1 for the others, and leaves the same predictor. |
| FrameTapes.ResidualTable | internal/voip/codec/mlow/encoder.go:456-477 | A residual's table is the row for its pulse count in tens, from the offset nearest to the negated gain, within 0..85. |
| FrameTapes.GainRowsTile | internal/voip/codec/mlow/cc_tables.go:407-410 | The gain rows tile their table, the row for no previous gain first. |
| FrameTapes.FilterByDifference | internal/voip/codec/mlow/cc_tables.go:427-432 | The part of the delta table that codes a filter depends only on the difference to the one before; the first filter has its own table. |
| FrameTapes.SliceIncreasing | internal/voip/codec/mlow/cc_tables.go:402-405 | The 92-entry slice never leaves its 177-entry row and is still a table. |
| FrameRoundTrip.FirstForgets | internal/voip/codec/mlow/lsf.go:93-125 | The first internal frame of a packet is coded alike whatever state an earlier packet left, and leaves the same predictors. |
| FrameRoundTrip.EncodeFrame | internal/voip/codec/mlow/encoder.go:535-569 | A frame comes out exactly when the tables carry every symbol and the bytes they take fit; its length is that byte count plus the leading byte. |
| FrameRoundTrip.RoundTrip | internal/voip/codec/mlow/decoder.go:177-245 | For every packet of three internal frames that fits, decoding the bytes, with any redundancy appended and in any leftover predictor state, returns all parameters of all three frames, the LTP tables of voiced frames following from predictors that both sides keep in step; any other packet is refused. |
| PulseForms.FormIsQuadratic | internal/voip/codec/mlow/celp_enc.go:788-838 | The form summed over pulses and echoes is the quadratic form of the banded Toeplitz matrix on the vectors they add up to. |
| PulseEnergy.EnergyNotNegative | internal/voip/codec/mlow/celp_enc.go:1243-1260 | The matrix built from a response is an autocorrelation, so no energy is negative and no score divides by zero. |
| PulseScores.DenStep | internal/voip/codec/mlow/celp_enc.go:767-838 | Adding a pulse changes the energy with each candidate by one shared amount and one cross term, whatever pulses, signs and echoes are involved. |
| PulseMerit.MeritIsMost | internal/voip/codec/mlow/celp_enc.go:172-177 | The figure of merit is the most that any gain takes off the squared error with the chosen pulses and that candidate, and correlation over energy is that gain. |
| PulseMerit.BestPulse | internal/voip/codec/mlow/celp_enc.go:666-669 | A pulse of greatest merit with its best gain leaves no more squared error between target and response than any other pulse with any gain. |
| PulseMerit.ReportedIsBest | internal/voip/codec/mlow/celp_enc.go:1003-1025 | Of all gains the reported one leaves the least squared error with the coded train, and the reported score is what it takes off. |
| SearchTools.NonZeroRange | internal/voip/codec/mlow/celp_enc.go:473-478 | Outside the returned rows the matrix column is zero. |
| SearchTools.Column | internal/voip/codec/mlow/celp_enc.go:471-471 | The window of the mirrored autocorrelation at the column's offset is the matrix column. |
| SearchTools.BuildFlip | internal/voip/codec/mlow/celp_enc.go:1261-1268 | The mirrored table is built so that every window reads right. |
| SearchTools.CodedIsChosen | internal/voip/codec/mlow/celp_enc.go:686-691 | The signed pulse codes stand for exactly the chosen pulses and signs. |
| SearchTools.FcbSynthesize | internal/voip/codec/mlow/celp_enc.go:1071-1081 | Synthesis from the codes gives the vector that the chosen pulses add up to. |
| SearchTools.ReportedVector | internal/voip/codec/mlow/celp_enc.go:1003-1025 | The energy, gain and score reported beside the codes are those of the vector the codes add up to, from the full sums. |
| GreedySearch.Extend | internal/voip/codec/mlow/celp_enc.go:642-664 | The O(n) in-place update leaves correlation and energy of every candidate equal to those recomputed from scratch for the chosen pulses plus that candidate. |
| GreedySearch.FcbSearch | internal/voip/codec/mlow/celp_enc.go:604-701 | Every pulse is a best one given those before it, by the figure of merit recomputed from scratch; each rate sends the prefix that last passed its rising threshold, or nothing; the numbers reported are those of the codes sent; and the second rate's limit holds but for one pulse, exactly as FecLimit says. |
| GreedySearch.MainIsBest | internal/voip/codec/mlow/celp_enc.go:461-469 | The rising threshold sends the prefix with the greatest score after paying for every pulse, the shortest of several. |
| GreedySearch.FecIsBest | internal/voip/codec/mlow/celp_enc.go:675-682 | The second rate does the same among the prefixes it hears of, its first pulse being free. |
| GreedySearch.FecLimit | internal/voip/codec/mlow/celp_enc.go:644-682 | The second rate sends more than its limit if and only if there is a pulse past the limit whose score passes that rate's threshold by its per-pulse gain, and then one more. |
| GreedySearch.OneTooMany | internal/voip/codec/mlow/celp_enc.go:675-676 | One sample and a limit of one pulse: two are sent. |
| BeamSums.CrossForms | internal/voip/codec/mlow/celp_enc.go:820-838 | The triple loop over echoes and rows computes the form of the new pulse's echo train with every candidate's. |
| BeamStates.BlockDen | internal/voip/codec/mlow/celp_enc.go:900-922 | One quadratic sum per block of a lag gives every candidate's initial energy. |
| BeamStates.EffectiveEcho | internal/voip/codec/mlow/celp_enc.go:874-886 | A lag inside the subframe repeats every pulse, each time weaker by the sharpening; any other leaves it alone. |
| BeamStates.StorePulse | internal/voip/codec/mlow/celp_enc.go:748-846 | For every survivor state, with or without pitch sharpening, storing a pulse leaves correlation and energy of every candidate exact for the longer choice. |
| BeamSearch.GetMaxiK | internal/voip/codec/mlow/celp_enc.go:288-305 | Each index is a best one among those not taken, distinct while any is left, and 0 from then on. |
| BeamSteps.ScoreReordered | internal/voip/codec/mlow/celp_enc.go:748-846 | The order in which pulses were chosen does not change the score of a choice. |
| BeamSteps.SignatureReordered | internal/voip/codec/mlow/celp_enc.go:853-859 | Nor its signature, so a reordering is always taken for a duplicate. |
| BeamSteps.BeamKeepsBest | internal/voip/codec/mlow/celp_enc.go:849-860 | When only reorderings share a signature, a continuation that a round of width w drops scores at most what every one of the w choices kept scores. |
| BeamSteps.BeamOrdered | internal/voip/codec/mlow/celp_enc.go:967-976 | A beam comes best first, no choice a reordering of another, until it repeats itself. |
| BeamSteps.RepeatsHoldAll | internal/voip/codec/mlow/celp_enc.go:967-976 | It repeats itself only when it holds every continuation. |
| BeamSearch.Round | internal/voip/codec/mlow/celp_enc.go:958-965 | The candidates of a round are exactly the numsurv best continuations of every survivor, in order, without those whose signature came before, each backed by an exact state. |
| BeamSearch.FcbSearchDeldec | internal/voip/codec/mlow/celp_enc.go:863-1043 | Every beam has the width its survivor count gives (1 in the last of several rounds) and follows from the one before by such a round and the picking of its best candidates; the leaders are ever longer choices, each at least as good as the best continuation of the leader before; each rate sends the leader that last passed its threshold, or nothing; the numbers reported are those of the sharpened trains sent. |
| BeamSearch.MainRankIsBest | internal/voip/codec/mlow/celp_enc.go:1028-1043 | The main rate sends the leader with the greatest score after paying for every pulse. |
| BeamSearch.FecRankIsBest | internal/voip/codec/mlow/celp_enc.go:954-981 | The second rate does so among the leaders it hears of. |
| BeamSearch.BeamsKeepBest | internal/voip/codec/mlow/celp_enc.go:937-989 | Over the whole search, what a beam drops scores at most what every choice it keeps scores, while only reorderings share a signature. |
| SurvivorAllocator.DistributeFcbSurv | internal/voip/codec/mlow/celp_enc.go:1471-1498 | Every slot ends in 1..4 if and only if the budget is at least two; then the total is the budget, but at least one and at most four per slot, and the last slot has one. |
| Dft.CooleyTukey | internal/voip/codec/mlow/fft.go:186-201 | Over any commutative ring, p interleaved transforms of length m combine to the transform of length p m. |
| Dft.ComplexIsRing | internal/voip/codec/mlow/fft.go:8-21 | Exact complex numbers are such a ring. |
| Fft.SmallestFactor | internal/voip/codec/mlow/fft.go:24-37 | Trial division by 2 and odd numbers up to the square root finds the least divisor above 1. |
| Fft.ArenaLen | internal/voip/codec/mlow/fft.go:152-161 | The arena length is what the recursion needs along one path, and at most twice the length. |
| Fft.NewTwiddles | internal/voip/codec/mlow/fft.go:76-101 | Every length the recursion visits finds its table, and the right one. |
| Fft.FftRec | internal/voip/codec/mlow/fft.go:168-202 | For every length, stride and offset, the output becomes the plain transform of the strided input, inside an arena of the computed length and without writing anything else, also when output and arena share an array. |
| Fft.Cfft | internal/voip/codec/mlow/fft.go:138-210 | With the tables and arena that the scratch allocates, the transform is the plain one, bin by bin. |
| RootSearch.A2NLSF | internal/voip/codec/mlow/lpc.go:490-593 | For every pair of polynomials and every even order the search ends within 17 (128 + d) steps; it succeeds exactly when one of the 17 passes crosses the grid often enough, and then returns, of the first such pass, every root at the place its cell's sign change and the bisection give; otherwise it returns the even spacing. Found roots are out of order by at most a cell and a unit. |
| RootSearch.RootBeyondCell | internal/voip/codec/mlow/lpc.go:526-553 | A root lies beyond its cell if and only if the last bracket of the bisection is (-1, 0) in the last part. |
| RootSearch.LastPartIsEighth | internal/voip/codec/mlow/lpc.go:526-539 | For every polynomial the three halvings end in an eighth of the cell, up to rounding, with the values that the polynomial has at its ends and a weak change of sign between them; the fraction counts the eighths before it. |
| RootSearch.Interpolation | internal/voip/codec/mlow/lpc.go:540-552 | The step is the nearest 32nd to where the chord crosses zero for small values, and less than one short of it for large ones. |
| RootSearch.FarIsCutOff | internal/voip/codec/mlow/lpc.go:551-551 | For large values it need not be the nearest. |
| RootSearch.Grid.CrossedWhen | internal/voip/codec/mlow/lpc.go:520-525 | When a cell counts as crossed, after a root in it or not. |
| RootSearch.Grid.FirstIsFirst | internal/voip/codec/mlow/lpc.go:516-566 | No cell before a root's is crossed. |
| Rtp.HeaderRoundTrip | internal/voip/media/rtp.go:49-124 | A header comes back from the wire, whatever follows it, if and only if it is well formed. |
| Rtp.HeaderLayout | internal/voip/media/rtp.go:54-63 | The first 12 bytes are those of RFC 3550. |
| Rtp.ParsesExactly | internal/voip/media/rtp.go:80-124 | Which buffers are refused and why, and what a truncated extension is read as. |
| Rtp.EncodeHeader | internal/voip/media/rtp.go:49-78 | Encoding fills the front of the buffer with the header's bytes and touches nothing behind; a short buffer is refused untouched. The length returned is that of the bytes if and only if the CSRC count is the length of the list. |
| ReplayWindow.Advanced | internal/voip/media/srtp.go:215-224 | Moving the highest index up, by shifts or by jumps of 64 and more, keeps bit k standing for "highest - k was accepted". |
| ReplayWindow.FilledIn | internal/voip/media/srtp.go:226-226 | Accepting an index inside the window keeps that meaning. |
| ReplayWindow.ReplayCheck | internal/voip/media/srtp.go:195-207 | The mask test passes exactly for an index that was not accepted and is fewer than 64 below every accepted one. |
| Srtp.Context.Protect | internal/voip/media/srtp.go:83-108 | A protected packet is header, ciphertext and tag under the index that the rollover rule gives. |
| Srtp.Context.Unprotect | internal/voip/media/srtp.go:110-146 | For every datagram the receiver gives the verdict, and moves to the state, of a receiver that remembers every accepted index. It accepts exactly the whole datagrams with a fresh index that end in the tag of all before it under that index's rollover count; a refused datagram changes nothing. |
| Srtp.AcceptedExactly | internal/voip/media/srtp.go:110-146 | A whole datagram with a fresh index is accepted if and only if its tag is right, and refused as unauthentic otherwise; a stale one is a replay. |
| Srtp.IvIsRfc | internal/voip/media/srtp.go:233-250 | The vector is that of RFC 3711: SSRC and index in their places, exclusive-or'd with the salt. |
| Srtp.CryptIsKeystream | internal/voip/media/srtp.go:299-306 | Encryption is the exclusive or with a keystream that the vector alone decides. |
| Srtp.XorBitwise | internal/voip/media/srtp.go:239-247 | A bit of an exclusive or depends on the two bits alone. |
| Srtp.XorLaws | internal/voip/media/srtp.go:239-247 | Zero is neutral, a byte cancels itself, and the order does not matter. |
| Srtp.IvFixesIndex | internal/voip/media/srtp.go:233-250 | No two packets of a session share an initialisation vector. |
| SrtpRuns.EstimateExact | internal/voip/media/srtp.go:162-176 | The receiver's estimate is the sender's index exactly when that index lies in a window of 2^16 around the highest seen. |
| SrtpRuns.SenderIndex | internal/voip/media/srtp.go:148-160 | The n-th packet of a session goes out under the index first + n, over every rollover. |
| SrtpRuns.JumpExact | internal/voip/media/srtp.go:148-160 | A sender that jumps ahead counts right exactly without a wrap or for jumps below 2^15. |
| SrtpRuns.TamperedTag | internal/voip/media/srtp.go:131-146 | A packet with a wrong tag is refused and changes nothing, so the genuine one is still accepted. |
| SrtpRuns.RunAgrees | internal/voip/media/srtp.go:83-227 | Over every delivery with loss, reordering and duplication inside that window, each arrival gives its original packet the first time, unless it is 64 or more behind, and a replay error otherwise. |
| SrtpRuns.NearRunAgrees | internal/voip/media/srtp.go:110-227 | The same when every arrival is less than 2^15 from the greatest index so far. |
| SrtpRuns.NeverTwice | internal/voip/media/srtp.go:110-227 | Whatever datagrams arrive and whatever the tags say, no index is accepted twice. |
| SrtpRuns.Exchange | internal/voip/media/rtp.go:209-217 | The same end to end, from the packet source through both contexts. |
| AnnexB.NalsClean | internal/voip/media/h264.go:22-70 | For every byte string the units are non-empty and hold no start code. |
| AnnexB.Canonical | internal/voip/media/h264.go:22-70 | Re-framing the units with 4-byte start codes and splitting again gives the same list. |
| AnnexB.FramingRoundTrip | internal/voip/media/h264.go:31-61 | Clean units behind 3-byte and 4-byte start codes come back as they were if and only if no 3-byte code follows a unit that ends in zero. |
| H264.PayloadsSendable | internal/voip/media/h264.go:77-112 | No payload exceeds the limit and no fragment both starts and ends a unit. |
| H264.FragmentLayout | internal/voip/media/h264.go:85-109 | Fragment k has the indicator and header of RFC 6184 and the next bytes of the unit, as many as fit but for the last. |
| H264.UnitsAbsorbed | internal/voip/media/h264.go:129-169 | The payloads of a list of units add exactly those units, whatever fragment was in flight before. |
| H264.AggregationAbsorbed | internal/voip/media/h264.go:136-145 | An aggregation packet adds exactly its units in order, up to a truncated or zero-sized one. |
| H264.AggregatedExist | internal/voip/media/h264.go:136-145 | Every aggregation packet is such a list of units and such a tail. |
| H264.OthersAbsorbed | internal/voip/media/h264.go:129-150 | A single unit adds itself; other types, empty payloads and bare fragments add nothing. |
| H264.LostStart | internal/voip/media/h264.go:147-167 | Without the fragment that starts a unit the rest of it adds nothing. |
| H264.KeyTypes | internal/voip/media/h264.go:174-178 | Key units are those of types 5, 7 and 8. |
| H264.Depacketizer.Push | internal/voip/media/h264.go:129-192 | For every payload, single, aggregated, fragmented or malformed, the state and the access unit returned are those of the list of finished units. |
| H264.Relay | internal/voip/media/h264.go:77-192 | For every stream of access units with types 1..23 and every payload limit, one output per access unit, with the same units and the right keyframe flag. |
| RtcpReceiver.AheadExact | internal/voip/media/rtcp_receiver.go:49-61 | A packet less than 2^16 ahead is numbered right exactly when its number did not wrap or it is at most 2^15 ahead. |
| RtcpReceiver.InOrderExact | internal/voip/media/rtcp_receiver.go:49-61 | For in-order arrivals with gaps up to 2^15 the extended number is the true index over any number of wraps. |
| RtcpReceiver.Stats.ReportBlock | internal/voip/media/rtcp_receiver.go:145-180 | The fraction fits 8 bits before narrowing and is the floor of 256 times the interval loss; interval losses add up to expected minus received. Jitter loses only its fraction to 32 bits, and the sender report's time comes back with the delay since it arrived. |
| RtcpReceiver.DeviationExact | internal/voip/media/rtcp_receiver.go:70-82 | Of two arrivals in order, the deviation that feeds the jitter is the true one if and only if the timestamp did not go back, or the spacings differ by exactly 2^31. |
| RtcpReceiver.DelayExact | internal/voip/media/rtcp_receiver.go:167-170 | The delay reported is the time in 65536ths of a second, rounded down, modulo 2^32. |
| RtcpReceiver.OvertakenPacket | internal/voip/media/rtcp_receiver.go:70-82 | A packet of 60 ms overtaken by its successor raises the jitter by more than 268,000,000 clock units. |
| RtcpReceiver.ReceiveRun | internal/voip/media/rtcp_receiver.go:45-180 | Over every in-order run with reports in between, the last report has the true index and the jitter estimate of RFC 3550 over unbounded times, and all interval losses sum to the packets that never came, which is not negative without repeats. |
| InboundGate.Gate.Admit | internal/voip/call/callmanager_media.go:230-253 | The map always holds exactly the last 512 admitted keys of the ring, all distinct, so a key is a duplicate exactly when it is among them. |
| InboundGate.Gate.OnRtp | internal/voip/call/callmanager_media.go:203-316 | Which packets are dropped for the lock, for a duplicate or later, exactly, and what happens to lock and silence clock. |
| InboundGate.Receive | internal/voip/call/callmanager_media.go:203-316 | Over every run from a reset gate each packet's outcome is fixed: own stream, locked out (another SSRC within 2 s of the last packet of the locked stream), duplicate (its SSRC and sequence number were admitted and fewer than 512 others since), unwanted, or undecryptable; every other packet is handled, and locks its SSRC. |
| InboundGate.KnownIsRepeated | internal/voip/call/callmanager_media.go:230-253 | The ring knows a key if and only if an earlier packet with that SSRC and sequence number was admitted, and fewer than 512 others since. |
| Stun.MessageRoundTrip | internal/voip/transport/stun.go:217-322 | Every attribute list whose encoding fits 16 bits comes back in order with types, lengths and data, followed by the checksums asked for. |
| Stun.AttributeLayout | internal/voip/transport/stun.go:44-55 | An attribute is type, length, data and zeros up to a multiple of four. |
| Stun.MessageLayout | internal/voip/transport/stun.go:95-101 | A message is type, length, magic cookie, transaction and body. |
| Stun.ChecksumLayout | internal/voip/transport/stun.go:63-93 | The checksum attributes have types 0x0008 and 0x8028 and take 24 and 8 bytes. |
| Stun.AttrsAreRead | internal/voip/transport/stun.go:291-319 | On any data the attributes parsed lie one behind the other's padding, up to the first that does not fit the announced length or the data. |
| Stun.ParsedExactly | internal/voip/transport/stun.go:217-240 | Exactly data of 20 bytes with the cookie or one of two types is parsed. |
| Stun.BuildStunMessage | internal/voip/transport/stun.go:60-101 | The message built is the header announcing its length and the attributes with both checksums. |
| Stun.IntegrityCovers | internal/voip/transport/stun.go:63-77 | What the integrity attribute covers is the front of the message truncated just after it, length field included. |
| Stun.FingerprintCovers | internal/voip/transport/stun.go:79-93 | The same for the fingerprint. |
| History.PagesUnderChange | internal/app/events/callregistry.go:205-229 | With any inserts and prunes between the pages, the rows collected descend strictly, none comes twice, and a matching record that is there throughout is collected. |
| History.HistoryRows | internal/app/events/callregistry.go:205-229 | On a query for one row more than the page holds, rows and cursor are those of the page. |
| History.FixedStore | internal/store/sqlite/sqlite.go:133-164 | On a table that does not change, the pages join to the full sorted list, in at most one page more than there are rows. |
| History.EverySession | internal/store/sqlite/sqlite.go:133-164 | Without a session and a cursor every record is asked for; a session selects its own. |
| History.PruneKeepsRecent | internal/store/sqlite/sqlite.go:166-170 | A record that fewer than `keep` others end as late as is never pruned. |

## Left out

- FrameRoundTrip.RoundTrip: takes the lag block of a voiced frame as a list of symbols with the table of
  each, because how those tables follow from the lag predictors rests on embedded seed tables. The same
  holds for FrameRoundTrip.EncodeFrame.
- FrameCoding.EncodeLtp: does not model gain or filter indices outside their tables, on which the table
  accessors panic.
- The low-rate configuration of the codec: frames are those of configuration 0.
- RangeEncoding.RangeEncoder.Done: does not model the raw bits that can be merged in at the end of a
  packet, which no caller writes.
- ICDF, log-probability and uniform symbols of the range coder.
- RangeDecoding.RangeDecoder.DecodeRawSymbol: does not model symbols wider than 23 bits, whose total can
  exceed the range.
- CdfTables.PdfToCmf: does not model negative weights or lists of more than 32767, which no table has
  and for which the result would not be a table.
- The contents of the seed tables: tables are taken by size and shape (strictly increasing).
- The dequantisation of LSF and gain indices, the noise fill, the synthesis and all signal analysis but
  the pulse searches, the transform and the root search.
- Floating-point accuracy anywhere; cosines and sines are exact powers of a root of unity.
- The real-valued packing of the transform, which only reorders bins.
- RootSearch.A2NLSF: does not model the polynomial evaluation, its 32-bit wrap-around or the bandwidth
  expansion; the polynomials are an arbitrary function with values below 2^30 in magnitude.
- Position and magnitude lists of the pulse decoder are one list of pairs; survivor states of the beam
  search are values instead of two banks of arrays.
- Srtp.Context.Protect: does not model a header whose CSRC count is not the length of its list; no caller
  builds one.
- Rtp.EncodeHeader: does not model a buffer that holds the announced size but not the CSRC list, on which
  the source panics.
- SurvivorAllocator.DistributeFcbSurv: does not model a negative budget.
- AES, HMAC, SHA-1 and CRC-32, key derivation, and the mutexes: contexts are used one call at a time.
- RtcpReceiver.ReceiveRun: does not model counts beyond 2^32, nor arrivals out of order across a wrap.
- RtcpReceiver.Stats.ReportBlock: the jitter is exact instead of floating point.
- Round-trip time and the quality snapshot of the RTCP receiver.
- RTCP, non-RTP data, the handlers, the media clock and the peer list of the inbound gate; two packets
  in the gate at once.
- Names of STUN methods and classes, error codes, relay addresses, and the padding's contents on input.
- `ended_at` before 1970: timestamps are not negative, so that the zero cursor is below every record. A
  page limit below one, which callers never ask for. Errors of the database.
