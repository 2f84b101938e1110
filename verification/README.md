# OpenWize in Dafny

A model of the algorithms and state machines of the OpenWize stack, a C implementation of the Wize
protocol for metering radio at 169 MHz, with proofs of what they promise. `dafny verify dfyconfig.toml`
checks the whole project.

## What is modelled

* **Reed-Solomon RS(255,223)** (`GF256`, `Field`, `Poly`, `PowerSums`, `RSCode`, `RSDecoder`,
  `RSBerlekamp`, `RSErrors`, `RSForney`, `RSCorrection`, `RSExact`, `RSLateZero`, `RSEarlyZero`,
  `RSTables`, `RSMachine`, `RSIteration`, `RSRepair`).
  The first group builds the field and its polynomials from exclusive-or on bytes; `RSCode` and
  `RSDecoder` say on values what `RS_Encode` and `RS_Decode` compute; `RSTables` to `RSRepair` are the C
  loops on their arrays, proved against those values. The C code keeps logarithms in `uint8_t` arrays, where the marker -1
  for the logarithm of zero becomes 255 and is never recognised again. The specification takes what such
  an entry is read back as for a parameter: 1 is the code as written, 0 the code with a signed marker.
* **Image store** (`ImgLayout`, `ImgBitmap`, `ImgStore`, `ImgRecovery`, `ImgRun`). A class with the pending slots,
  the bitmap, the flash and the counter of `img_storage.c`, tied to a map of stored blocks.
* **Software timers** (`TimerQueue`, `TimeEvt`). The list relinked through `pNext`, tied to a map of
  absolute deadlines.
* **CRC** (`CrcPoly`, `CrcTable`, `Crc`): the table-driven CRC of EN 13757-4, on machine words.
* **Frames** (`Frame`, `FrameBytes`, `Proto`): building and extracting in place, with any ciphers and hashes, and what
  that means for the bytes.
* **Logger** (`Logger`, `LoggerCalls`): the buffer pool as interleaved steps of any number of producers and one printer.
* **Parameters and remote commands** (`Params`, `ParamTable`, `ParamLaws`, `AdmSession`, `AdmLaws`, `StoreEffects`,
  `StoreLaws`, `SesTurn`, `Dispatcher`): all that the dispatcher does to parameters, keys and announcement, as a history of effects, and
  what each of its turns is, on values.
* **Download session** (`DwnSession`): the bookkeeping of days and windows.
* **Alarm** (`RtcAlarm`): adding milliseconds to a time of day with 1/1024 sub-seconds.

Clocks, the radio, the timers' and the network's answers, and the verdict on an announcement are parameters
of the operations. Machine widths are written out where a value can leave them.

## Where code and expectation differ

* `RS_Decode` answers 1 for a single error of magnitude 1 and leaves a wrong word: the evaluator's only
  coefficient is then 0 and read back as 1 (rs.c:479-482). `SingleErrorCorrected` is the exact law for one
  error, `ExactLaw` the one for several; `EarlyZeroPattern` is a pattern of 16 errors that is never corrected
  because its first syndrome is zero.
* `ImgStore_Init` admits 809 blocks, one more than the bitmap has bits. The guard at img_storage.c:93 lets
  identifiers through that are not expected. They keep the invariant, but are counted too: with fewer than 806
  expected blocks the answer of `ImgStore_IsComplete` can be wrong (`CountsRight`, `ForeignLine`). With a partial
  last line one of them, the block just behind the image, programs a word twice (`PaddedTwice`).
* A partial last line never gives its slot back, so two passes need not complete an image whose
  block number is no multiple of 4 (`TwoPasses` says when they do).
* The last timer of the list has a null link and so passes for one that is not listed. `TimerStart` says what
  starting it again does: its value is overwritten first, so that `_update` takes off it what has elapsed since
  the last update and its deadline comes that much too early; and if a timer before it then has more left, the
  second insertion closes the links into a circle (`StartAgain` is an input, `Endless` the consequence). An
  absolute value that has passed is answered with 1, but stays in the list all the same.
* `TimeEvt_UpdateTime` with a new time gives absolute timers other values and moves none of them (`UpdateTime` has
  the exact condition, `SetForward` an input).
* A frame with 230 L7 bytes has the length field of a download frame, and is not extracted again.
* A retransmission that arrives before the response has been sent takes the pending execution back
  (ses_dispatcher.c:339-342), and is then answered without an error (`LostByRetransmission`). The response's
  counter starts at 0, so that a first command with counter 0 passes for one already seen. At the end of an
  install session ses_dispatcher.c:381 tests `ADM_RSP_PEND`, which is the bit of a pending execution. A response
  that is reported sent to the branch of the delays (ses_dispatcher.c:480-487) is not looked at. `ExecutedExactly`
  is the exact law: a command that has been taken is executed if and only if its response, without an error, is
  reported sent in a turn of the network before another frame is received or an install session ends. The flag of
  a periodic install is noted (ses_dispatcher.c:251-254) and looked at by nothing.
* `_dwn_mgr_adjustInit_` counts the offset from now, but it is added to the start of the day (dwn_mgr.c:148). In a
  day that has begun the first window is therefore right only exactly one interval after its start, and from two
  intervals on the timer is set to a time that is past (`AdjustInit`, `LateOpening`). With one second between
  windows the number of windows past does not fit 16 bits (`SkippedWraps`).

## Model

| member | source | states |
|---|---|---|
| `Field.MulLogs` | sources/Samples/ReedSolomon/src/rs.c:146-179 | multiplication by adding table indices modulo 255 is multiplication in GF(2^8) |
| `GF256.XorIsMachineXor` | sources/Samples/ReedSolomon/src/rs.c:296 | the field's addition is the exclusive-or of bytes that the code uses |
| `RSTables.Tables.Init` | sources/Samples/ReedSolomon/src/rs.c:225-235 | the loops fill alpha_to, index_of and gg with exactly the powers of alpha, the logarithms and the logarithms of the generator's coefficients |
| `RSTables.Tables.GenerateField` | sources/Samples/ReedSolomon/src/rs.c:146-179 | alpha_to and index_of are inverse tables of powers and logarithms; alpha_to[255], which nothing writes, stays 0 |
| `RSTables.Tables.TimesLinear` | sources/Samples/ReedSolomon/src/rs.c:189-218 | one turn of the in-place loop multiplies the generator by X + alpha^i |
| `RSCode.GenPolyRoot` | sources/Samples/ReedSolomon/src/rs.c:189-218 | alpha, ..., alpha^n are roots of the generator |
| `RSCode.GenPolyNonZero` | sources/Samples/ReedSolomon/src/rs.c:189-218 | no coefficient of the generator is zero, so the marker for the logarithm of zero never enters the byte array gg |
| `RSTables.Tables.Shift` | sources/Samples/ReedSolomon/src/rs.c:579-611 | one turn of the in-place shift register, by table indices, is one step of the polynomial division |
| `RSTables.Tables.Encode` | sources/Samples/ReedSolomon/src/rs.c:567-611 | the buffer holds the parity of the specification, for every message |
| `RSCode.LfsrDivides` | sources/Samples/ReedSolomon/src/rs.c:567-611 | data(X) X^32 + parity(X) is a multiple of the generator: the shift register leaves the remainder |
| `RSCode.Cyclic` | sources/Samples/ReedSolomon/src/rs.c:567-611 | rotating a word of 255 symbols multiplies its value at a power of alpha by a power of alpha (alpha^255 = 1) |
| `RSCode.EncodedIsCodeWord` | sources/Samples/ReedSolomon/src/rs.c:567-611 | with the data first and the parity last, the order callers use, all 32 syndromes vanish |
| `RSCode.ParityIsUnique` | sources/Samples/ReedSolomon/src/rs.c:567-611 | the encoder's parity is the only one that makes the syndromes vanish |
| `RSMachine.ComputeSyndromes` | sources/Samples/ReedSolomon/src/rs.c:289-305 | s holds the marked values of the received word at the 32 roots, and the error flag is set exactly when the word is no code word |
| `RSIteration.Workspace.SelectRow` | sources/Samples/ReedSolomon/src/rs.c:347-358 | the search over d and u_lu finds the earlier row with a non-zero discrepancy and the greatest lead |
| `RSIteration.Workspace.AddCombinedRow` | sources/Samples/ReedSolomon/src/rs.c:345-378 | the new row is p + (d_u/d_q) X^(u-q) e on the table, the old row is switched to index form in place, and the other rows stay |
| `RSIteration.Workspace.ComputeDiscrepancy` | sources/Samples/ReedSolomon/src/rs.c:381-394 | the next discrepancy, as computed on byte-wide marked syndromes |
| `RSIteration.Workspace.Turn` | sources/Samples/ReedSolomon/src/rs.c:333-395 | one turn of the do-while loop on the arrays elp, d, l, u_lu is one pass on the table of values |
| `RSIteration.Workspace.Iterate` | sources/Samples/ReedSolomon/src/rs.c:317-397 | the loop stops with the locator polynomial of the specification in row u, of degree l[u] |
| `RSBerlekamp.NextRowKeeps` | sources/Samples/ReedSolomon/src/rs.c:345-378 | the row a pass adds satisfies the syndrome recurrence one position further than the last |
| `RSBerlekamp.RunKeeps` | sources/Samples/ReedSolomon/src/rs.c:333-395 | Berlekamp's invariant over the whole run: when no syndrome is misread, row v has constant term 1 and its convolution with the syndromes vanishes from its degree + 1 up to v - 1, and d records where it first fails |
| `RSBerlekamp.FirstFailure` | sources/Samples/ReedSolomon/src/rs.c:333-395 | a row that first fails at position u has u - degree at most the number of errors |
| `RSBerlekamp.RunShort` | sources/Samples/ReedSolomon/src/rs.c:333-395 | no row is ever longer than the number of errors allows |
| `RSBerlekamp.LocatorRoots` | sources/Samples/ReedSolomon/src/rs.c:317-397 | the resulting polynomial vanishes at the inverse of every error location |
| `RSCorrection.LocatorFound` | sources/Samples/ReedSolomon/src/rs.c:317-397 | for up to 16 errors the iteration ends with the product of the (1 + X_k X) itself |
| `RSErrors.RootBound` | sources/Samples/ReedSolomon/src/rs.c:397-426 | a searched polynomial of constant term 1 has at most as many recorded roots as its degree |
| `RSErrors.RootsExactly` | sources/Samples/ReedSolomon/src/rs.c:408-425 | the search finds exactly the inverse error locations |
| `RSRepair.FindRoots` | sources/Samples/ReedSolomon/src/rs.c:402-425 | turning the registers in place evaluates the polynomial at alpha^i in pass i; root and loc list its roots and never overflow |
| `RSForney.EvaluatorIsPoly` | sources/Samples/ReedSolomon/src/rs.c:428-461 | z is the error evaluator polynomial of the error pattern |
| `RSForney.Numerator` | sources/Samples/ReedSolomon/src/rs.c:475-484 | the numerator at an inverse location is the error value times the product over the other locations (Forney's formula) |
| `RSForney.DenominatorIsProduct` | sources/Samples/ReedSolomon/src/rs.c:488-496 | the denominator loop computes that product |
| `RSForney.ErrorValueIsError` | sources/Samples/ReedSolomon/src/rs.c:475-500 | their quotient is the error value |
| `RSRepair.Repair` | sources/Samples/ReedSolomon/src/rs.c:398-520 | the correcting branch, in place: result and word are those of the specification, misread zeros included |
| `RSRepair.Decode` | sources/Samples/ReedSolomon/src/rs.c:244-557 | RS_Decode as written: result and buffer are those of the specification, for every buffer |
| `RSCorrection.DecodeLimits` | sources/Samples/ReedSolomon/src/rs.c:397-426 | whatever is received, result 0 leaves all 255 bytes alone and result 1 changes at most 16; the search records at most degree-many roots |
| `RSCorrection.CorrectsErrors` | sources/Samples/ReedSolomon/src/rs.c:244-557 | up to 16 errors anywhere, of any value, are corrected, with a signed marker for the logarithm of zero, or with the byte-wide one when nothing it reads back is zero |
| `RSExact.LocatorForced` | sources/Samples/ReedSolomon/src/rs.c:397-426 | a word that has come out right was changed at every error, so that the polynomial searched is the locator polynomial and no coefficient of it was misread |
| `RSExact.EvaluatorForced` | sources/Samples/ReedSolomon/src/rs.c:475-500 | ... and no coefficient of the evaluator polynomial, since each error value is then the error |
| `RSExact.CorrectsExactly` | sources/Samples/ReedSolomon/src/rs.c:244-557 | with the first 31 syndromes not zero, up to 16 errors are corrected by the code as written if and only if neither polynomial has a zero coefficient |
| `RSLateZero.MisreadDiscrepancy` | sources/Samples/ReedSolomon/src/rs.c:381-394 | a zero syndrome makes the next discrepancy off by exactly one coefficient of the row |
| `RSLateZero.LateZeroFails` | sources/Samples/ReedSolomon/src/rs.c:244-557 | n errors whose first zero syndrome is number 16 + n or later, up to 31, are never corrected |
| `RSLateZero.ExactLaw` | sources/Samples/ReedSolomon/src/rs.c:244-557 | the exact law for n errors whose first 15 + n syndromes are not zero: corrected if and only if no later one of the first 31 and no coefficient of either polynomial is zero |
| `RSEarlyZero.EarlyZeroFails` | sources/Samples/ReedSolomon/src/rs.c:244-557 | 16 errors whose first syndrome is zero are never corrected, unless the second coefficient of their locator polynomial is 1 |
| `RSEarlyZero.EarlyZeroPattern` | sources/Samples/ReedSolomon/src/rs.c:244-557 | such a pattern, the same for every code word: fifteen errors of magnitude 1 and one that makes the first syndrome zero |
| `RSCorrection.MagnitudeOneFails` | sources/Samples/ReedSolomon/src/rs.c:475-500 | a single error of magnitude 1 is answered with 1 and mis-corrected, at every position of every code word |
| `RSCorrection.SingleErrorCorrected` | sources/Samples/ReedSolomon/src/rs.c:244-557 | the exact law for one error in the code as written: corrected if and only if its magnitude is not 1 |
| `RSCorrection.EncodedIsAccepted` | sources/Samples/ReedSolomon/src/rs.c:537-556 | an encoded message comes back with result 1 and unchanged |
| `RSCorrection.MessageSurvivesOneError` | sources/Samples/ReedSolomon/src/rs.c:244-611 | encode, corrupt one byte by x, decode: result 1 and all 255 bytes restored if and only if x is not 1 |
| `ImgStore.Context.Write` | sources/Samples/ImgStorage/src/img_storage.c:121-181 | the flash driver's conditions: whole double words on a multiple of 8, none of them programmed since the last erase; every call in the store meets them |
| `ImgStore.Context.FillPending` | sources/Samples/ImgStorage/src/img_storage.c:127-168 | the unaligned ends of a block, and nothing else, go to the cells of the slot that belong to it |
| `ImgStore.Context.WriteAligned` | sources/Samples/ImgStorage/src/img_storage.c:171-181 | the aligned part programs exactly the block's own words, with its bytes |
| `ImgStore.Context.WritePairs` | sources/Samples/ImgStorage/src/img_storage.c:186-211 | a shared word is programmed, and counted, exactly when both of its blocks are stored, with their bytes |
| `ImgStore.Context.WriteLast` | sources/Samples/ImgStorage/src/img_storage.c:212-239 | the padded word of a partial last line is programmed and counted with the last block only |
| `ImgStore.Context.SetBitmap` | sources/Samples/ImgStorage/src/img_storage.c:441-454 | setting one bit adds one block to the set the bitmap stands for |
| `ImgBitmap.LineTests` | sources/Samples/ImgStorage/src/img_storage.c:186-205 | the three mask tests on a line's nibble mean: next block stored, previous block stored, whole line stored |
| `ImgStore.Context.Claim` | sources/Samples/ImgStorage/src/img_storage.c:105-119 | a block is taken exactly when the slot of its line is free or already its line's |
| `ImgStore.Context.StoreBlock` | sources/Samples/ImgStorage/src/img_storage.c:77-255 | for every identifier below 808, expected or not, but for the second of the two blocks that share the padded word: the stored blocks gain this one exactly when it is new and its line gets the slot; bitmap, slots, pending bytes, flash with its padding, programmed words and counter all keep saying what the stored blocks are; nothing programmed is forgotten |
| `ImgStore.Context.IsComplete` | sources/Samples/ImgStorage/src/img_storage.c:261-264 | the answer is yes exactly when the score of the stored blocks is the expected number; as long as none but expected blocks are stored that is exactly completion; and the flash of a complete image holds all its blocks, padded with 0xFF to the end of the last double word |
| `ImgStore.Context.Init` | sources/Samples/ImgStorage/src/img_storage.c:344-371 | the three return codes and what each leaves alone, a refusal everything; success starts an empty image on a flash of 0xFF, within the invariant up to 808 blocks |
| `ImgStore.ScoreDelta` | sources/Samples/ImgStorage/src/img_storage.c:193-249 | storing a block raises the counter by exactly what the pairs, the full line and the last block add |
| `ImgStore.RunStoresTheImage` | sources/Samples/ImgStorage/src/img_storage.c:77-255 | over any run of blocks of one image, in any order, with losses and repetitions, the stored blocks are the image's |
| `ImgLayout.CounterIsExact` | sources/Samples/ImgStorage/src/img_storage.c:261-264 | pairs + full lines + last block adds up to at most N, and to N exactly on completion |
| `ImgLayout.RunKeepsConsistent` | sources/Samples/ImgStorage/src/img_storage.c:105-119 | over any run no two begun lines share a slot |
| `ImgLayout.CountsRight` | sources/Samples/ImgStorage/src/img_storage.c:93-264 | the counter tells completion for every set of blocks that can have been stored if and only if 806 or more blocks are expected, and never says yes too early if and only if that is so or none is expected |
| `ImgLayout.Fools` | sources/Samples/ImgStorage/src/img_storage.c:93-264 | for any other expected number but 0: all blocks but the last, and two or three that are not expected, can be stored together, are not complete and score exactly that number |
| `ImgStore.ForeignLine` | sources/Samples/ImgStorage/src/img_storage.c:77-371 | an input: four blocks are expected, the blocks 4 to 7 come, and the answer is yes |
| `ImgStore.PaddedTwice` | sources/Samples/ImgStorage/src/img_storage.c:184-239 | storing a block programs a word twice if and only if the last line is partial and the block is the second of the very last one and the one behind it |
| `ImgRun.TwoPassesOfRun` | sources/Samples/ImgStorage/src/img_storage.c:77-255 | after any run of blocks, two passes of StoreBlock over all identifiers complete the image if and only if no line is shut out, and always for a multiple of four |
| `ImgRun.Download` | sources/Samples/ImgStorage/src/img_storage.c:77-371 | from ImgStore_Init over any blocks in any order to ImgStore_IsComplete: the answer is yes exactly when every block has found its slot, and then the flash is the image, byte for byte |
| `ImgStore.AllDue` | sources/Samples/ImgStorage/src/img_storage.c:121-239 | every word of a complete image has been programmed |
| `ImgRecovery.OnePass` | sources/Samples/ImgStorage/src/img_storage.c:105-119 | from any state, one increasing pass completes the image if and only if no unfinished line is held out of its slot by a later one |
| `ImgRecovery.OnePassSuffices` | sources/Samples/ImgStorage/src/img_storage.c:105-119 | up to 96 blocks one pass always suffices |
| `ImgRecovery.TwoPasses` | sources/Samples/ImgStorage/src/img_storage.c:105-119 | from any state, two increasing passes complete the image if and only if a partial last line does not shut an earlier one out |
| `ImgRecovery.TwoPassesSuffice` | sources/Samples/ImgStorage/src/img_storage.c:242-251 | with a multiple of four blocks two passes always suffice |
| `TimeEvt.Context.Update` | sources/Samples/TimeEvt/src/time_evt.c:395-421 | the walk takes the elapsed time off every timer, to no less than 0, and changes no link |
| `TimeEvt.Context.Insert` | sources/Samples/TimeEvt/src/time_evt.c:431-479 | the relinked list is acyclic and is the queue with the timer before the first greater value, after equal ones; the timer that is the last one already stays there exactly when no other has more left, and otherwise the links run in a circle |
| `TimeEvt.Context.Remove` | sources/Samples/TimeEvt/src/time_evt.c:490-518 | the list loses that timer only, in order, and the timer's own link is cut |
| `TimeEvt.Context.TimerStart` | sources/Samples/TimeEvt/src/time_evt.c:128-177 | the value is 1000 u32Value + i16DeltaMs, exactly when that is not negative. A timer not listed is then due at that value, or that much from now if it is not an absolute one: the deadline map gains its deadline and nothing else, and list, deadlines and alarm keep agreeing. The last listed timer, whose link is null too: its value is written before the elapsed time is taken off, and all is well exactly when what is left to it is no less than what is left to the one before; otherwise the links run in a circle, or the list is out of order. Any other timer, and a refused value, change nothing |
| `TimeEvt.Context.Endless` | sources/Samples/TimeEvt/src/time_evt.c:431-479 | in such a circle no walk along the links comes to an end |
| `TimeEvt.StartAgain` | sources/Samples/TimeEvt/src/time_evt.c:128-177 | timers of 5 s and 10 s, the second started again with 1 s: the circle |
| `TimerQueue.LastAgrees` | sources/Samples/TimeEvt/src/time_evt.c:143-170 | giving the last timer another value changes its deadline only |
| `TimeEvt.Context.TimerStop` | sources/Samples/TimeEvt/src/time_evt.c:185-209 | the timer's deadline is forgotten and nothing else |
| `TimeEvt.Context.UpdateTime` | sources/Samples/TimeEvt/src/time_evt.c:248-300 | without a new time the queue, the deadlines and the alarm agree at the current one; with one, absolute timers keep their deadlines on the new clock and the others what is left to them, and all is well exactly if the values that the timers then have, computed from those before the call, are in order |
| `TimeEvt.ResetDeadlines` | sources/Samples/TimeEvt/src/time_evt.c:248-300 | timer by timer: an absolute one is due at its own value on the new clock, or at once, and to the others is left what was |
| `TimeEvt.SetForward` | sources/Samples/TimeEvt/src/time_evt.c:248-300 | an input: a timer with 5 s left before one that ends at 10 s; the clock is set to 8 s and the list is out of order |
| `TimeEvt.Context.Sweep` | sources/Samples/TimeEvt/src/time_evt.c:307-350 | the walk that restarts at the head ends, leaves the expired queue, and has notified the expired timers in order |
| `TimeEvt.Context.EventHandler` | sources/Samples/TimeEvt/src/time_evt.c:307-355 | due timers are notified once each in order of deadline, one-shots are gone, periodic ones start over from now, nothing at 0 is left, and the alarm is set from the minimum |
| `TimeEvt.Context.DeadlinesAfter` | sources/Samples/TimeEvt/src/time_evt.c:307-350 | timer by timer: a deadline still to come stays, a one-shot that is due is forgotten, a periodic one is due again one period from now |
| `TimerQueue.PositionUnique` | sources/Samples/TimeEvt/src/time_evt.c:431-479 | the place found by the walk is the only one that keeps the queue sorted and stable |
| `TimerQueue.ElapseAgrees` | sources/Samples/TimeEvt/src/time_evt.c:395-421 | updating keeps last update + value equal to the later of deadline and last update, for every timer |
| `TimerQueue.InsertAgrees` | sources/Samples/TimeEvt/src/time_evt.c:431-479 | inserting adds exactly the new timer's deadline to what the queue says |
| `TimerQueue.HeadIsEarliest` | sources/Samples/TimeEvt/src/time_evt.c:169-173 | the head of the list is a timer with the earliest deadline, so the alarm set from it is right |
| `TimerQueue.RearmLowersZeros` | sources/Samples/TimeEvt/src/time_evt.c:307-350 | arming a timer again lowers the number of expired ones if and only if its period is not 0: the handler's measure |
| `TimerQueue.NotifiedExactly` | sources/Samples/TimeEvt/src/time_evt.c:307-350 | the timers notified are exactly those whose deadline has passed, each once |
| `TimerQueue.ExpireAgrees` | sources/Samples/TimeEvt/src/time_evt.c:307-350 | the handler's loop refines one step on the set of deadlines, and leaves none that has passed |
| `CrcTable.TableIsShifted` | sources/Samples/CRC_sw/src/crc_sw.c:49-83 | each of the 256 constants of the table is i x^16 modulo the polynomial 0x3D65 |
| `Crc.Compute` | sources/Samples/CRC_sw/src/crc_sw.c:117-134 | the loop leaves the complemented CRC in the result, or reports a null or empty argument |
| `Crc.TableIsDivision` | sources/Samples/CRC_sw/src/crc_sw.c:101-134 | for every message the table-driven register is the remainder of bit-by-bit division of message x^16 |
| `Crc.UpdateIs` | sources/Samples/CRC_sw/src/crc_sw.c:101-105 | one table step is eight steps of that division |
| `Crc.RegisterXor` | sources/Samples/CRC_sw/src/crc_sw.c:117-134 | the uncomplemented CRC of an exclusive-or is the exclusive-or of the CRCs |
| `Crc.SealedIsAccepted` | sources/Samples/CRC_sw/src/crc_sw.c:143-146 | a message followed by its CRC field is accepted |
| `Crc.AcceptedWhenDivisible` | sources/Samples/CRC_sw/src/crc_sw.c:117-146 | a changed frame is accepted if and only if the polynomial divides the change |
| `Crc.BurstRejected` | sources/Samples/CRC_sw/src/crc_sw.c:117-146 | no burst of at most sixteen bits is accepted, wherever it lies in message and CRC field |
| `Crc.AdjacentBytesRejected` | sources/Samples/CRC_sw/src/crc_sw.c:117-146 | no change confined to two adjacent bytes is accepted |
| `Frame.Layout` | sources/WizeCore/proto/src/proto.c:793-971 | where each part of an assembled frame is found again |
| `Frame.BuiltCarries` | sources/WizeCore/proto/src/proto.c:793-971 | every field of a built frame is readable at the place the extraction looks for it |
| `Frame.RoundTrip` | sources/WizeCore/proto/src/proto.c:553-971 | extracting a built DATA or DATA_PRIO frame gives id, key, type, time stamp and L6App||L7 back, for any cipher, any hash and whichever filters are on; an L7 part that the caller had ciphered already comes back deciphered, or is refused if that fails |
| `Frame.BuiltReachesExchange` | sources/WizeCore/proto/src/proto.c:142-187 | a built frame is routed to the exchange layer if and only if its L7 part is under 230 bytes and the receiver admits its length |
| `FrameBytes.RefusedForDefects` | sources/WizeCore/proto/src/proto.c:553-776 | on the bytes, for any ciphers and hashes: a frame is accepted if and only if no check whose filter is on finds anything (address, maker, CRC, protocol, version, network, kind, the two hashes, a missing key), and a refused one is answered with the code of the first thing found |
| `FrameBytes.AcceptedMessage` | sources/WizeCore/proto/src/proto.c:553-776 | every field of the message of an accepted frame, of each kind, from its bytes |
| `FrameBytes.BuiltOnBytes` | sources/WizeCore/proto/src/proto.c:793-971 | what a built frame of each kind holds in which byte |
| `FrameBytes.BuiltIsGenuine` | sources/WizeCore/proto/src/proto.c:793-971 | its CRC, its two hashes and its ciphering are those that a receiver looks for |
| `FrameBytes.ChangedIsRefused` | sources/WizeCore/proto/src/proto.c:595-609 | a frame with a good CRC that is changed within two adjacent bytes behind its address is answered with PROTO_FRAME_CRC_ERR |
| `FrameBytes.ChangedOnItsWay` | sources/WizeCore/proto/src/proto.c:595-609 | so is every built frame |
| `Proto.PutBody` | sources/WizeCore/proto/src/proto.c:793-971 | the L7 part in the buffer is the plain or the ciphered one, ciphered in place, and what precedes it stays |
| `Proto.ExchangeBuild` | sources/WizeCore/proto/src/proto.c:793-971 | the buffer holds the frame of the specification, and each failure has its code |
| `Proto.ProtoBuild` | sources/WizeCore/proto/src/proto.c:198-229 | null arguments, empty and oversized messages, and otherwise the built frame and its size |
| `Proto.Open` | sources/WizeCore/proto/src/proto.c:645-733 | which key authenticates and deciphers the frame, in place, and that the rest of the frame stays |
| `Proto.ExchangeExtract` | sources/WizeCore/proto/src/proto.c:553-776 | the message's fields are those the specification reads out of the frame; on failure the message is untouched |
| `Proto.ProtoExtract` | sources/WizeCore/proto/src/proto.c:142-187 | null arguments, lengths that are too small or too large, which layer a length goes to, and the result of the exchange layer on the bytes received; a refused message is marked unknown and empty |
| `Logger.Reachable` | sources/Samples/Logger/src/logger.c:159-442 | the inductive invariant holds after any interleaving of any number of producers and the printing task |
| `Logger.StepKeeps` | sources/Samples/Logger/src/logger.c:159-442 | every step of every task keeps it |
| `Logger.PoolIsSafe` | sources/Samples/Logger/src/logger.c:372-442 | semaphore + takers + locked ids + pending gives is 15; no id has two owners; the search never fails; the queue never overflows |
| `Logger.OutputIsFifo` | sources/Samples/Logger/src/logger.c:159-442 | what has been printed is a prefix of what has been posted, in order, each text once; when all is quiet it is all of it and the pool is free |
| `Logger.NoDeadlock` | sources/Samples/Logger/src/logger.c:159-442 | unless everything is quiet some task can go on |
| `Logger.Drains` | sources/Samples/Logger/src/logger.c:159-442 | without new calls every run has at most a given number of steps, and where none is possible everything posted is out |
| `LoggerCalls.CallsArePosted` | sources/Samples/Logger/src/logger.c:159-330 | over every run the texts of a producer's calls are, in order, those it has posted and then the one it has in hand |
| `LoggerCalls.EveryCallComesOut` | sources/Samples/Logger/src/logger.c:159-442 | where no step is possible any more, what has been printed are the texts of all calls, each as often as it was called with, and those of one producer in the order of its calls |
| `ParamTable.Table.CheckEnum` | sources/Samples/Parameters/src/parameters.c:151-195 | the loop says whether the value is in the restriction's table |
| `ParamTable.Table.CheckConformity` | sources/Samples/Parameters/src/parameters.c:379-400 | the choice among the three checks decides conformity |
| `ParamTable.Table.RemoteWrite` | sources/Samples/Parameters/src/parameters.c:87-124 | the copy changes the parameter's own bytes and no other, and only if it may be written |
| `ParamTable.Table.RemoteRead` | sources/Samples/Parameters/src/parameters.c:87-124 | the parameter's value is read if it may be read |
| `ParamTable.Table.CheckCommand` | sources/WizeCore/app/src/internal/adm_internal.c:232-299 | the verdict of the checking loop, which changes nothing |
| `ParamTable.Table.ReplayCommand` | sources/WizeCore/app/src/ses_dispatcher.c:557-581 | the replay loop changes the table as the specification does |
| `ParamTable.Table.LocalWrite` | sources/Samples/Parameters/src/parameters.c:411-424 | the device's own access: a copy to the parameter's bytes, whatever the access rights |
| `Params.FineEntries` | sources/WizeCore/app/src/internal/adm_internal.c:232-299 | a command found fine consists of authorised entries only |
| `ParamLaws.FineExactly` | sources/WizeCore/app/src/internal/adm_internal.c:232-299 | a command is fine if and only if every entry of the walk names a known parameter that may be written, with a value that conforms |
| `ParamLaws.VerdictExactly` | sources/WizeCore/app/src/internal/adm_internal.c:232-299 | otherwise the verdict is about the first entry that does not, and is unknown, denied or illegal exactly on conditions on that entry alone |
| `SesTurn.WriteAnswered` | sources/WizeCore/app/src/internal/adm_internal.c:232-299 | and so is the code of the answer |
| `ParamLaws.EntriesAre` | sources/WizeCore/app/src/ses_dispatcher.c:557-581 | the entries that the replay applies are those of the walk, with the bytes behind their identifiers |
| `ParamLaws.CommandedValues` | sources/WizeCore/app/src/ses_dispatcher.c:550-581 | after a write command each parameter holds the last value that a fine command has for it, and otherwise what it held |
| `ParamLaws.AdmittedExactly` | sources/Samples/Parameters/src/parameters.c:151-275 | which numbers each kind of restriction admits, and that one without a table or of unknown width admits none |
| `ParamLaws.NumberOnBytes` | sources/Samples/Parameters/src/parameters.c:151-275 | the number looked at is made of the first bytes, the least significant first |
| `ParamLaws.ConformsExactly` | sources/Samples/Parameters/src/parameters.c:132-139 | restriction 0 and those behind the table restrict nothing |
| `ParamLaws.ReadExactly` | sources/WizeCore/app/src/internal/adm_internal.c:150-222 | a read command is answered without an error if and only if every parameter is known, may be read and fits into the answer, and otherwise with the code for the first that is not |
| `Params.ReplayAppliesAll` | sources/WizeCore/app/src/ses_dispatcher.c:557-581 | the replay walks the same entries as the check and applies them all, in order |
| `Params.AllOrNothing` | sources/WizeCore/app/src/ses_dispatcher.c:550-628 | a write command applies all of its entries, each authorised, or leaves the table unchanged |
| `Params.StoredValues` | sources/Samples/Parameters/src/parameters.c:87-124 | a write changes the value of its own parameter only |
| `Params.ApplyKeepsConform` | sources/Samples/Parameters/src/parameters.c:379-400 | authorised writes keep every restricted parameter conforming |
| `Params.AlwaysConforms` | sources/Samples/Parameters/src/parameters.c:379-400 | from conforming defaults, after any run of remote commands every restricted parameter conforms |
| `AdmSession.Session.Fsm` | sources/WizeCore/mgr/src/adm_mgr.c:116-308 | the next state and both pending bits for every state, event and answer of the network; when exactly each flag is raised: a command, a sent response, sent data, a late response, success, a time-out, an error, the end; no command is pending while one may arrive; a response goes out only after it has been declared ready |
| `AdmLaws.OneStage` | sources/WizeCore/mgr/src/adm_mgr.c:136-305 | an awaited event takes the session one of five stages on, or ends it when a call fails, a time-out comes or the response is not ready; no other event does anything to it |
| `AdmLaws.EndsAreTold` | sources/WizeCore/mgr/src/adm_mgr.c:136-305 | which of the ends is reported as an error, a time-out or a success |
| `AdmLaws.SessionEnds` | sources/WizeCore/mgr/src/adm_mgr.c:136-305 | over every run a session is over after at most five awaited events |
| `Dispatcher.SesDisp.PreCmd` | sources/WizeCore/app/src/internal/adm_internal.c:73-116 | a counter that differs from the last one is taken as a new command, and only such a one; otherwise the stored response stays (a ping excepted) |
| `Dispatcher.SesDisp.CheckRead` | sources/WizeCore/app/src/internal/adm_internal.c:150-222 | the loop finds the error code of the specification, and changes nothing |
| `Dispatcher.SesDisp.PostCmd` | sources/WizeCore/app/src/ses_dispatcher.c:550-628 | the store changes by the command's effect when its answer reports no error, and not at all otherwise |
| `StoreLaws.KeyAfter` | sources/WizeCore/app/src/ses_dispatcher.c:584-598 | after any history, key 16 is what the last executed key command with identifier 1 carries, key 17 that of identifier 2, key 18 what the last executed announcement carries; each key is what it was where there is none, and no other effect touches it |
| `StoreLaws.AnnouncedAfter` | sources/WizeCore/app/src/ses_dispatcher.c:594-620 | the announced download is the last executed announcement, and no other effect touches it |
| `StoreLaws.ValueAfter` | sources/WizeCore/app/src/ses_dispatcher.c:550-676 | each parameter after any history, effect by effect: the last value of a fine write command, full power in TX_POWER, the results of an install session in their places, and nothing else |
| `Dispatcher.SesDisp.Received` | sources/WizeCore/app/src/ses_dispatcher.c:313-348 | a new counter makes the command pending (a ping its response) and, but for a ping, its response ready, which says exactly what checking has found; a repeated one executes nothing and takes a pending execution back |
| `Dispatcher.SesDisp.Responded` | sources/WizeCore/app/src/ses_dispatcher.c:350-358 | a pending command is executed when its response has been sent, unless that reports an error, and is pending no more |
| `Dispatcher.SesDisp.OnDayPass` | sources/WizeCore/app/src/ses_dispatcher.c:642-676 | full power is restored exactly when as many days have passed without a command as the parameter says |
| `Dispatcher.SesDisp.FullPowerOnBytes` | sources/WizeCore/app/src/ses_dispatcher.c:660-664 | that number of days is in network order |
| `Dispatcher.SesDisp.WritePongs` | sources/WizeCore/app/src/internal/inst_internal.c:225-266 | the results of an install session are written, in order, exactly if there has been a pong |
| `Dispatcher.SesDisp.NetEvent` | sources/WizeCore/app/src/ses_dispatcher.c:307-404 | where an event of the network takes the sessions; the last command taken is executed exactly when it is pending and its response, which reports no error, has just been sent; the results of an install session are written exactly at its end; a received frame, a sent response and the end of an install session are all that changes what is pending, each in its own way |
| `Dispatcher.SesDisp.Step` | sources/WizeCore/app/src/ses_dispatcher.c:192-490 | what an event word makes of the active session, of the state of the administration session, of the response, of the pending command, of the count of days and of the history: full power is restored exactly on the day it is due, and then the network's event has exactly its effect |
| `Dispatcher.SesDisp.Run` | sources/WizeCore/app/src/ses_dispatcher.c:192-490 | any run of frames received and events is a run of such steps; the store is what its start and the history make of it; no command is executed twice, and a command taken in the run is executed if and only if it has been answered without an error and its response has been sent before another frame was received or an install session ended; none has the counter of the one before |
| `SesTurn.ExecutedExactly` | sources/WizeCore/app/src/ses_dispatcher.c:307-390 | the law behind it, for every sequence of turns |
| `SesTurn.PendingSince` | sources/WizeCore/app/src/ses_dispatcher.c:307-390 | a pending command whose response is under way has been taken, and there has been neither a frame nor the end of an install session since |
| `SesTurn.TurnsAre` | sources/WizeCore/app/src/ses_dispatcher.c:307-404 | an install session ends in the turn in which it is active no more; a frame counts as received and a response as sent exactly on the event of the administration session for it |
| `SesTurn.AdminEnds` | sources/WizeCore/app/src/ses_dispatcher.c:307-404 | the administration session stays active until it becomes idle or is closed |
| `SesTurn.FullPowerInTime` | sources/WizeCore/app/src/ses_dispatcher.c:642-676 | over any stretch of a run without a received frame, full power is restored once for each so many days as the parameter says and one more, counted exactly |
| `SesTurn.RequestOpens` | sources/WizeCore/app/src/ses_dispatcher.c:254-300 | a request opens a session only when none is active, with the data on the air and nothing pending |
| `SesTurn.OtherSessions` | sources/WizeCore/app/src/ses_dispatcher.c:402-490 | which session an event of a delay goes to, and that the others leave the administration session alone |
| `Dispatcher.LostByRetransmission` | sources/WizeCore/app/src/ses_dispatcher.c:307-358 | an input, for every table and every write command that may be carried out: its response cannot be sent, it is sent again, is then answered without an error, and nothing has been written |
| `StoreEffects.AtMostOnce` | sources/WizeCore/app/src/ses_dispatcher.c:307-358 | in a history in order no command occurs twice |
| `StoreEffects.HistoryConforms` | sources/WizeCore/app/src/ses_dispatcher.c:550-676 | from conforming parameters, any history of commands and of own writes that the restrictions admit leaves every restricted parameter conforming |
| `Dispatcher.SesDisp.StaysConform` | sources/WizeCore/app/src/ses_dispatcher.c:192-490 | so does any run of the dispatcher |
| `DwnSession.Session.AdjustInit` | sources/WizeCore/mgr/src/dwn_mgr.c:289-361 | which day is opened and when none is left; which windows are skipped; next day + 86400 days left is the announced end; and when the result, added to the start of the day, is the start of the next window that is not skipped: always in a day that is still to come, and in one that has begun exactly one interval after its start; from two intervals on it is past |
| `DwnSession.OffsetFromNow` | sources/WizeCore/mgr/src/dwn_mgr.c:341-359 | counted from now the result is the start of the first window that is not left out, or of the one behind it if now is the start of one, and no sooner than the time of preparation |
| `DwnSession.Session.DayRight` | sources/WizeCore/mgr/src/dwn_mgr.c:293-338 | a day is over when its last window has started, and then the day after it is opened if there is one; with one window a second the seconds are counted anew from 65536 on |
| `DwnSession.OffsetRight` | sources/WizeCore/mgr/src/dwn_mgr.c:341-359 | the law behind it, for every elapsed time, interval and time of preparation |
| `DwnSession.LateOpening` | sources/WizeCore/mgr/src/dwn_mgr.c:289-361 | an input: 150 s into a day of windows each minute, the result is 30 |
| `DwnSession.StartedAre` | sources/WizeCore/mgr/src/dwn_mgr.c:318-320 | the count of windows past is the number of window starts before now |
| `DwnSession.SkippedWraps` | sources/WizeCore/mgr/src/dwn_mgr.c:293-320 | 16 bits hold that count if and only if windows are more than a second apart or fewer than 65536 seconds have passed |
| `DwnSession.Session.Fsm` | sources/WizeCore/mgr/src/dwn_mgr.c:108-277 | state, next day, days and windows left after every event; opening waits, with the timer set to the result added to the start of the day, exactly when there is a day left and the timer starts; the next day has its timer at its start; which flag is raised when; the conservation of days and windows; a delay event lowers the measure by exactly one or ends the session; the windows opened go up by one exactly when listening begins, and never down within a session |
| `DwnSession.Session.Window` | sources/WizeCore/mgr/src/dwn_mgr.c:179-237 | one delay event opens a window, starts the next day or ends the session with success |
| `DwnSession.MoveCounts` | sources/WizeCore/mgr/src/dwn_mgr.c:108-277 | one event keeps the sum of next day and days left, and uses up a window for each one that it opens |
| `DwnSession.MoveExactly` | sources/WizeCore/mgr/src/dwn_mgr.c:157-277 | with nothing failing, a delay opens a window as long as one is left, then the next day begins, then the session ends; a window ends with a block or a time-out |
| `DwnSession.SessionExactly` | sources/WizeCore/mgr/src/dwn_mgr.c:157-277 | so a session in which nothing fails opens exactly the windows it had |
| `DwnSession.SessionBounded` | sources/WizeCore/mgr/src/dwn_mgr.c:108-277 | over a whole session, whatever happens, the windows opened and the delay events handled are bounded by the counts at its start |
| `DwnSession.Session.WindowsBound` | sources/WizeCore/mgr/src/dwn_mgr.c:108-277 | at most u16BlocksCount (u8DayRepeat + 1) windows open in a session |
| `RtcAlarm.StartMs` | demo/Nucleo-L476/bsp/src/bsp_rtc.c:462-518 | the alarm is a valid time less than 1 ms away from now + delay on the 24-hour dial; no intermediate value leaves its type |
| `RtcAlarm.Split` | demo/Nucleo-L476/bsp/src/bsp_rtc.c:462-518 | a delay under a day is split into hours, minutes, seconds and milliseconds without loss |
| `RtcAlarm.Carry` | demo/Nucleo-L476/bsp/src/bsp_rtc.c:462-518 | carrying from milliseconds to hours keeps the sum, modulo a day |
| `RtcAlarm.ReadRounds` | demo/Nucleo-L476/bsp/src/bsp_rtc.c:462-518 | reading 1/1024 sub-seconds as milliseconds rounds down by less than one |
| `RtcAlarm.SetRounds` | demo/Nucleo-L476/bsp/src/bsp_rtc.c:462-518 | setting milliseconds as sub-seconds rounds up by less than one |

## Left out

- RSLateZero.ExactLaw: n errors with a zero among their first 15 + n syndromes are outside it; of them, with the byte-wide marker, only 16 errors with a zero first syndrome are covered (`EarlyZeroFails`).
- RSRepair.Decode: the local array err is a local value of one turn, the other large local arrays are fields of one workspace object.
- ImgStore.Context.StoreBlock: not for the identifiers 808 and 809, whose bits are outside the bitmap, nor for the block whose storing would program the padded word a second time; flash addresses are offsets from u32Addr, flash writes succeed, and the pending state machine of ImgStore_SetPending is one flag.
- ImgRecovery.TwoPassesSuffice: passes send all the blocks in increasing order, without losses.
- TimeEvt.Context.TimerStart: tasks are never null; after a circle has been closed nothing more is said.
- Frame.RoundTrip: for frames with the application data types, key identifiers that fit the four bits of KEYSEL, and an L7 part of at most 230 bytes, as offsets are bytes.
- Proto.ProtoExtract: no result is stated for the download layer (`_download_extract`), and lengths 22 to 24, for which the size of the L7 part wraps around, are not covered.
- Params.AlwaysConforms: for table entries that do not overlap, restriction widths equal to the parameter sizes, and commands whose bytes are followed by readable memory.
- Dispatcher.SesDisp.Step: the install and download sessions answer with any flags but those of a command, the same ones throughout a step, and what the pongs have left is a parameter; the answer to a read command is its error code only; writing a key is an entry in a map; the validation of an announcement is a parameter; other tasks leave the parameters alone meanwhile.
- DwnSession.Session.Open: whether the timer accepts the time is a parameter, so a time that is past does not by itself end the session here.
- RtcAlarm.StartMs: for a sub-second prescaler of 1023 and without the rounding correction, which is not defined by default.
- Logger: formatting, time stamps and colours; a text is filled in one step, and output always succeeds.
- AES, CMAC and SHA-256: any functions of which decryption undoes encryption; ImgStore_Verify is therefore not modelled.
- Statistics of the protocol layer, the pong ring of the install session, and ImgStore_GetMaxBlockNb.
- net_mgr.c and net_api.c, the hardware drivers, start-up code, and the answers of the dispatcher to API requests.
- TimeEvt_TimerInit, Param_LocalAccess, and the getters of parameters.c.
