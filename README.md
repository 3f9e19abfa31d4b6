# BM1397 driver core, modelled in Dafny

This project models the sequential core of the cgminer driver for Bitmain
BM1397 based USB miners (the GekkoScience Compac F and its relatives):

- the 5-bit CRC of the chip protocol, how a command frame is built, and the
  CRC check on received frames;
- the receive-stream resynchroniser of the listen loop: it skips rubbish,
  cuts fixed-length frames, checks their CRC and drops what it consumed;
- the three time-bucketed ring statistics: the per-chip nonce ring, the
  hashrate ring and the job ring;
- the choice of ticket and the state machine that validates it;
- nonce-frame decoding, the duplicate check, the chip index and the
  work-slot table with its rolling job id;
- the protocol state machine: the `compac_scanwork` transitions, the chip
  count in `compac_listen2` and the port policy of `compac_prepare`;
- the frequency clamps, the divider plan of `calc_gsf_freq` and the
  decoding of a frequency reply;
- the byte helpers of `driver_bm1397_utils.c`.

A concurrent C program over USB becomes one device model in two layers:

- **Pure specifications.** Every operation has a closed-form function
  over values. Module `Device` holds `DeviceState` and one function per
  driver operation. `ChipRing`, `HashRing` and `JobRing` hold the ring
  histories, `Ticket` the ticket logic, and `Rx.Frames` the parse loop.
  The lemmas about these functions state what the driver promises.
- **Imperative code.** Where the C code changes state step by step, the
  model does too:
  - `Compac.CompacInfo` is the device record;
  - `HashRing.GekkoHash` and `JobRing.GekkoJob` keep their slots in arrays;
  - `Rx.RxBuffer` is the receive buffer with its fill position;
  - `Work.WorkSlots` is the work table;
  - the loops of `bmcrc`, `stuff_reverse`, the ring catch-ups and the parse
    loop are `while` loops with invariants.

  Each method's `ensures` ties the new state to the pure specification of
  the old state. For example, `Model() == TicketSet(old(Model()), …)`.

Inputs the model cannot see become parameters:

- the bytes a USB read returns (`data`);
- the clock (`now`, `sinceReset`);
- the difficulty that `test_nonce_value` found for a reply (`diff`);
- whether `submit_nonce` accepted it (`submitted`).

Constants of `driver-bm1397.h`, which is not part of this model, are
fields of `Device.Config` or of the ring geometries:

- CHNUM, GHNUM, GHLIMsec, JOBMIN, JOBLIMn;
- the widths behind CHBASE and JOBTIME;
- BM1397FREQ, BM1397TICKET, TOCHIPPY1397.

`Device.ConfigOk` assumes only what the code relies on:

- the chip ring has at least one slot (CHNUM > 0) and a positive period width;
- 0 < GHLIMsec <= GHNUM;
- 0 < JOBLIMn <= JOBMIN, and the JOBTIME width is positive;
- `min_job_id <= max_job_id`;
- the `nb2chip` and TOCHIPPY1397 tables have 256 entries, one per address byte.

TICKET_DELAY, TICKET_BELOW_LIM and MAX_TICKET_CHECK are the constants 8,
4 and 3 in module `Ticket`.

`xOFF(x)` is a non-negative `x mod N`. The values the detection code puts
in the record are constants of the model: rx_len 9, freq_mult 25 and the
job-id roll 0x10 / 4 / 0x7f.

Some details of the code that the model keeps:

- The CRC check of a received frame covers `8*(len-2)-5` bits starting at
  byte 2 (`bmcrc(buf+2, …)`).
- The port policy of `compac_prepare` is an `if / else if` chain. Every
  fifth re-initialisation forces the device off the bus. Only the other
  re-initialisations after the tenth disable it. The per-port counter is a
  `uint8_t`, so it wraps from 255 to 0.
- On its first call, `gh_offset` ignores the wipe request. It only anchors
  the hashrate history and every chip history.
- The resynchroniser drops whatever rubbish precedes a frame as well as the
  frame, so the fill position drops by more than `rx_len` when rubbish was
  skipped.

## Model

| member | source | states |
|---|---|---|
| Utils.Bound | driver_bm1397_utils.c:3-10 | The lower bound wins below it, the upper bound above it, and otherwise the value comes back. With lower <= upper the result lies between them. |
| Utils.StuffReverse | driver_bm1397_utils.c:12-18 | `dst[i] == src[len-1-i]` for every `i < len`, so `dst[0..len)` is the reverse of `src[0..len)`. No other byte of dst changes. |
| Utils.ReverseReverse | driver_bm1397_utils.c:12-18 | Reversing the result again gives back the source bytes. |
| Utils.StuffLsb | driver_bm1397_utils.c:20-26 | Only `dst[0..4)` is written. It holds x least significant byte first, and reads back little-endian as x. |
| Utils.LeRoundTrip | driver_bm1397_utils.c:20-26 | `dst[0] + 256*dst[1] + 65536*dst[2] + 16777216*dst[3] == x` for the bytes `stuff_lsb` writes. |
| Utils.StuffMsb | driver_bm1397_utils.c:28-34 | Only `dst[0..4)` is written. It holds x most significant byte first, reads back big-endian as x, and is the byte reverse of what `stuff_lsb` writes. |
| Utils.BeRoundTrip | driver_bm1397_utils.c:20-34 | The big-endian bytes read back as x and are the reverse of the little-endian bytes. |
| Utils.BeBytesValue | driver_bm1397_utils.c:28-34 | Four bytes read big-endian and written back big-endian are the same four bytes. |
| Crc5.Crc | driver-bm1397.c:173-190 | The CRC of the first n bits is below 32. |
| Crc5.BmCrc | driver-bm1397.c:173-190 | The bit loop over the five-stage register, with the byte index moving on after every eighth bit, returns the CRC of the first n bits, MSB first. The result is below 32. |
| Crc5.CrcPrefix | driver-bm1397.c:173-190 | The CRC of n bits depends only on those n bits. |
| Crc5.PrefixAgree | driver-bm1397.c:178-188 | Two bit streams whose first m bits agree leave the register in the same state. |
| Crc5.RegAfterBits | driver-bm1397.c:178-188 | The register after n bits of the bytes, read MSB first, is the register after the same n bits taken as a bit stream. |
| Crc5.RegAfterStep | driver-bm1397.c:178-188 | Each further bit of input moves the register by exactly one shift with that bit. |
| Crc5.ShiftIn | driver-bm1397.c:179-184 | The body of the bit loop moves the five stages in place exactly as one register shift with the input bit. |
| Crc5.ShiftInjective | driver-bm1397.c:179-184 | One register step with the same input bit never merges two register states. |
| Crc5.ShiftSeparates | driver-bm1397.c:179-184 | One register step with different input bits never gives the same state. |
| Crc5.PackInjective | driver-bm1397.c:189 | Different final registers give different CRC values. |
| Crc5.UnpackPack | driver-bm1397.c:189 | The five register stages can be read back from the CRC value. |
| Crc5.RegsDiffer | driver-bm1397.c:178-188 | Bit streams that differ in exactly bit j leave different registers after every later bit. |
| Crc5.StayApart | driver-bm1397.c:178-188 | Once two registers differ, feeding both the same bits keeps them apart. |
| Crc5.SingleBitError | driver-bm1397.c:173-190 | Flipping any one covered bit changes the CRC, so every single-bit error is detected. |
| Crc5.BitAtAppend | driver-bm1397.c:181 | Bytes after the covered ones do not change the bits the CRC reads. |
| Frame.OrCrcLowClear | driver-bm1397.c:240 | OR-ing a CRC into a byte whose five low bits are clear adds it, and the low five bits then hold the CRC. |
| Frame.Framed | driver-bm1397.c:227-240 | The emitted frame is two bytes longer than the payload, opens with 55 AA and carries the payload unchanged up to its last byte. |
| Frame.FramedShape | driver-bm1397.c:227-240 | The frame is `bytes + 2` long: 0x55 0xAA, then the payload unchanged except the last byte, which is the payload's last byte OR the CRC. |
| Frame.Send2 | driver-bm1397.c:219-240 | The bytes sent are exactly the framed request. The CRC is taken over the original request, not the copy, and the command buffer past the frame is unchanged. |
| Frame.CopyBehindPreamble | driver-bm1397.c:227-238 | The command buffer holds 0x55 0xAA and the request's first `bytes` bytes. Nothing after them changes. |
| Frame.CommandCrcRecoverable | driver-bm1397.c:240 | For a command whose last byte has its low five bits clear, a receiver that recomputes the CRC over the frame after the preamble finds it in the low five bits of the last byte. |
| Frame.CoveredBits | driver-bm1397.c:2402-2403 | For a status byte at most 0x1f, the bits the receive check covers are the body followed by three zero bits. |
| Frame.RxCrcOk | driver-bm1397.c:2402-2403 | A frame passes the receive check only when its last byte is at most 0x1f. `RxCrcOkIffResponse` states exactly which frames pass. |
| Frame.RxCrcOkIffResponse | driver-bm1397.c:2402-2406 | A frame opening with 0xAA 0x55 passes the receive check exactly when it is the reply the chip builds for its body: status byte = CRC of body and three zero bits. |
| Frame.ResponseAccepted | driver-bm1397.c:2402-2406 | Every well-formed chip reply passes the check. |
| Frame.RxSingleBitError | driver-bm1397.c:2402-2406 | A reply with one covered bit flipped fails the check. |
| Ring.Off | driver-bm1397.c:379-382 | `xOFF` always names a slot: it is x mod N, never negative. |
| Ring.FwdIsOff | driver-bm1397.c:379 | Taking `xOFF(o + k)` moves k slots forward with one wrap. |
| Ring.FwdStep | driver-bm1397.c:379 | k steps and then one more are k + 1 steps. |
| Ring.WindowStep | driver-bm1397.c:377-387 | A catch-up one period longer covers exactly one more slot, the next one. |
| Ring.ExpireStep | driver-bm1397.c:377-387 | One more pass of a catch-up loop clears exactly the next slot and nothing else. |
| Ring.ExpireNone | driver-bm1397.c:377-387 | A catch-up of no periods changes nothing. |
| Ring.ExpireCompose | driver-bm1397.c:377-387 | Catching up d1 periods and then d2 is one catch-up of d1 + d2. |
| Ring.SumUpdate | driver-bm1397.c:381-382 | Replacing one slot changes the sum by exactly the difference, which keeps a running total equal to the slot sum. |
| Ring.SumZeroIffZeros | driver-bm1397.c:391-394 | Non-negative slots sum to 0 only when every slot is 0, so a zero total means the history is empty. |
| Ring.ExpireNonNeg | driver-bm1397.c:377-387 | Clearing slots keeps every count non-negative. |
| Ring.Aged | driver-bm1397.c:384-385 | After d steps of `if (last < N-1) last++`, the counter never goes down and stays below N. `Ring.AgedStep` and `Ring.AgedCompose` relate the steps. |
| Ring.AgedCompose | driver-bm1397.c:384-385 | Aging d1 steps and then d2 is aging d1 + d2. |
| ChipRing.Wiped | driver-bm1397.c:322-330 | `gc_wipe` anchors the history at now. Offset, total and `last` become 0, every slot becomes 0, and the total equals the slot sum. |
| ChipRing.Advanced | driver-bm1397.c:348-398 | `gc_offset` keeps the total equal to the slot sum and brings the anchor into the period of now. |
| ChipRing.GcOffset | driver-bm1397.c:348-398 | The in-place procedure leaves exactly the closed-form advanced history. |
| ChipRing.CatchUp | driver-bm1397.c:375-387 | The do-while clears one slot per elapsed period and takes its count off the total. It moves the offset and ages `last`, ending as the history moved on by delta periods. |
| ChipRing.AdvancedWipes | driver-bm1397.c:357-365 | A wipe, time going back, or a jump of at least CHNUM periods gives the `gc_wipe` history: empty and anchored at now. |
| ChipRing.AdvancedCatchUp | driver-bm1397.c:367-394 | For 0 < delta < CHNUM, exactly the delta slots after the old offset are cleared and the others keep their counts. The offset moves by delta mod CHNUM and the total is the slot sum. `last` ages by delta up to CHNUM-1, or drops to 0 when the total is 0. |
| ChipRing.AdvancedSamePeriod | driver-bm1397.c:357-394 | Within the same period only the empty-history rule applies. |
| ChipRing.AdvancedIdempotent | driver-bm1397.c:348-398 | Advancing again to the same now changes nothing. |
| ChipRing.AdvancedMoves | driver-bm1397.c:367-387 | A jump of 0 < d < CHNUM periods is the history moved on by d. |
| ChipRing.MovedCompose | driver-bm1397.c:377-387 | Moving on d1 and then d2 periods leaves the slots, offset, total and `last` of moving on d1 + d2. |
| ChipRing.AdvancedCompose | driver-bm1397.c:348-398 | Two advances within CHNUM periods, to t1 and then to t2, leave the same slots, offset, total and `last` as one advance to t2. |
| ChipRing.Noted | driver-bm1397.c:518-525 | After the advance, the current slot and the total both gain one nonce. Everything else is as advanced, and the total still equals the slot sum. |
| ChipRing.AddNonce | driver-bm1397.c:518-525 | The chip half of `add_gekko_nonce` leaves exactly the noted history. |
| HashRing.Emptied | driver-bm1397.c:433-446 | The wipe of `gh_offset`: every slot empty, offset, both totals and `last` 0, anchored at now. The totals equal the slot sums. |
| HashRing.Advanced | driver-bm1397.c:402-492 | `gh_offset` keeps both totals, difficulty and count, equal to the slot sums. `last` is 0 whenever the count is 0. |
| HashRing.FirstCallAnchors | driver-bm1397.c:411-484 | On the first call (zerosec 0) only the anchor is set, whatever the wipe flag says. |
| HashRing.AdvancedWipes | driver-bm1397.c:424-446 | After the first call, a wipe, time going back or a jump of at least GHLIMsec empties every slot and both totals. |
| HashRing.AdvancedCatchUp | driver-bm1397.c:447-484 | For 0 < delta < GHLIMsec, exactly the delta slots after the old offset are emptied and the others are unchanged. The offset moves by delta mod GHNUM and both totals are the slot sums. `last` ages up to GHNUM-1, or drops to 0 with no nonces. |
| HashRing.AdvancedIdempotent | driver-bm1397.c:402-492 | Advancing again to the same second changes nothing. |
| HashRing.Recorded | driver-bm1397.c:504-516 | Recording a sample keeps the offset, the anchor and the last index, and adds the difficulty to the difficulty total and one nonce to the nonce total and to the current slot. |
| HashRing.RecordedConsistent | driver-bm1397.c:504-516 | The difficulty goes into the current slot and `diffsum`, and one nonce into the slot count and the total. `firstt`/`firstd` are stamped only when the slot had no difficulty yet, `lastt` is always stamped, and no other slot changes. |
| HashRing.GekkoHash.constructor | driver-bm1397.c:2892 | The zeroed history of a fresh device record. |
| HashRing.GekkoHash.Wipe | driver-bm1397.c:433-446 | The in-place wipe leaves the emptied history. |
| HashRing.GekkoHash.CatchUp | driver-bm1397.c:456-476 | The do-while leaves the slots after the offset emptied and the offset moved. The totals are the new slot sums and `last` is aged. |
| HashRing.GekkoHash.ClearSlot | driver-bm1397.c:462-471 | One pass takes the slot's difficulty and count off the totals and empties it. The totals stay equal to the slot sums. |
| HashRing.GekkoHash.Offset | driver-bm1397.c:402-492 | The history half of `gh_offset` leaves exactly the closed-form advanced history and reports whether this was the first call. |
| HashRing.GekkoHash.Record | driver-bm1397.c:504-516 | Recording the sample in place leaves exactly the recorded history. |
| HashRing.GekkoHash.AddNonce | driver-bm1397.c:502-516 | Advance without a wipe, then record the sample. |
| JobRing.Emptied | driver-bm1397.c:639-654 | The wipe of `job_offset`: every slot empty, offset, total, `last` and the last-job time 0, anchored at the current period. |
| JobRing.Advanced | driver-bm1397.c:613-700 | `job_offset` keeps the job total equal to the slot sum. `last` is 0 whenever the total is 0. |
| JobRing.FirstCallAnchors | driver-bm1397.c:624-692 | On the first call (zeromin 0) only the anchor is set, whatever the wipe flag says. |
| JobRing.AdvancedWipes | driver-bm1397.c:630-654 | After the first call, a wipe, time going back or a jump of at least JOBLIMn periods empties every slot, the total and the last-job time. |
| JobRing.AdvancedCatchUp | driver-bm1397.c:655-692 | For 0 < delta < JOBLIMn, exactly the delta slots after the old offset are emptied, the offset moves by delta and the total is the slot sum. `last` ages up to JOBMIN-1, or drops to 0 with no jobs. |
| JobRing.AdvancedIdempotent | driver-bm1397.c:613-700 | Advancing again within the same period changes nothing. |
| JobRing.Counted | driver-bm1397.c:715-768 | Counting a job keeps the total equal to the slot sum. |
| JobRing.JobAdded | driver-bm1397.c:704-771 | `add_gekko_job` keeps the total equal to the slot sum. |
| JobRing.JobAddedCounts | driver-bm1397.c:715-768 | Without a wipe, the job adds one to the total and one to the current period's count. It stamps that period's first-job time only when it had no job, stamps its last-job time and the device's last-job time, and changes no other slot. |
| JobRing.GekkoJob.constructor | driver-bm1397.c:2892 | The zeroed job history of a fresh device record. |
| JobRing.GekkoJob.Wipe | driver-bm1397.c:639-654 | The in-place wipe leaves the emptied history. |
| JobRing.GekkoJob.ClearSlot | driver-bm1397.c:668-679 | One pass takes the slot's count off the total and empties it. The total stays the slot sum. |
| JobRing.GekkoJob.CatchUp | driver-bm1397.c:664-684 | The do-while empties the slots after the offset, moves it and totals the rest. |
| JobRing.GekkoJob.Offset | driver-bm1397.c:613-700 | `job_offset` in place leaves exactly the closed-form advanced history. |
| JobRing.GekkoJob.CountJob | driver-bm1397.c:715-768 | The counting part of `add_gekko_job` in place. |
| JobRing.GekkoJob.AddJob | driver-bm1397.c:704-771 | Advance, then count the job unless it was a wipe. |
| Ticket.TableDescending | driver-bm1397.c:76-86 | The work difficulties of the ticket table strictly decrease. |
| Ticket.SelectFrom | driver-bm1397.c:797-822 | The scan from entry i finds the first eligible entry: floored difficulty at least its work difficulty and `chips*cores` above its limit. It finds none exactly when no later entry is eligible. |
| Ticket.Select | driver-bm1397.c:797-822 | The entry picked is eligible and no earlier entry is. None is picked exactly when no entry is eligible. |
| Ticket.SelectIsBest | driver-bm1397.c:797-822 | The chosen entry has the largest work difficulty among the eligible ones, and it is at most the floored difficulty. (With lines 76-86.) |
| Ticket.SelectMonotone | driver-bm1397.c:797-822 | A higher requested difficulty never gets a lower ticket. |
| Ticket.ChipsCores | driver-bm1397.c:795 | `cc = chips * cores` as a `uint32_t`: the product itself whenever it fits. |
| Ticket.EffectiveDiff | driver-bm1397.c:784-788 | A difficulty of 0 is taken as 128. Any other is kept. |
| Ticket.ResetChoice | driver-bm1397.c:784-822 | `set_ticket(0.0)` picks entry 64 above 2600 chips×cores, 32 above 1300, 16 above 0, and nothing without chips. (With lines 76-86.) |
| Ticket.SetTicket | driver-bm1397.c:784-826 | Nothing changes when no entry is eligible or, without force, when the difficulty is unchanged. Otherwise the entry's difficulty, mask and number are set and `last_work_diff` becomes the effective difficulty. Work, nonces, below count, `ok` and `got_low` are reset and the failures are kept. Validity is preserved. |
| Ticket.TicketCommand | driver-bm1397.c:829-830 | The 9-byte ticket command writes the mask into register BM1397TICKET. |
| Ticket.TicketFrameShape | driver-bm1397.c:829-832 | The frame sent is 11 bytes: preamble, command with the mask in byte 9, and the CRC of the first 64 command bits alone in the last byte. |
| Ticket.Check | driver-bm1397.c:1437-1521 | The ticket check never changes the ticket number. It only keeps or resets the failures, and any reselection it asks for is the retry/give-up rule. |
| Ticket.Resolve | driver-bm1397.c:1454-1517 | A retry is `set_ticket(0.0, true)` followed by one more failure. Giving up is `set_ticket(0.0, true)` with the ticket taken as ok. |
| Ticket.Checked | driver-bm1397.c:1437-1521 | One checked nonce keeps the ticket a row of the table. `CheckedIdle`, `CheckedDelay`, `CheckedBelowLimit` and `CheckedWindowEnd` state its cases. |
| Ticket.CheckedIdle | driver-bm1397.c:1437 | A confirmed ticket, or a nonce without difficulty, changes nothing. |
| Ticket.CheckedDelay | driver-bm1397.c:1441 | The first TICKET_DELAY nonces after a change are only counted. |
| Ticket.CheckedBelowLimit | driver-bm1397.c:1441-1475 | A nonce below `d_hi_limit` after the delay counts as below. The TICKET_BELOW_LIM-th one reselects: a retry with one more failure while failures are within MAX_TICKET_CHECK, else a final reselect that marks the ticket ok. |
| Ticket.CheckedWindowEnd | driver-bm1397.c:1476-1518 | At `i32_nonces_count + TICKET_DELAY` nonces the ticket is confirmed, with failures reset to 0, exactly when a nonce below `d_low_limit` was seen. Otherwise the retry/give-up rule applies. |
| Ticket.CheckedValid | driver-bm1397.c:1437-1521 | The check keeps the ticket valid: the number names an entry, and failures rise only from within MAX_TICKET_CHECK. |
| Ticket.RetryRestarts | driver-bm1397.c:1470-1474 | A retry restarts the count on the `set_ticket(0.0)` entry with one more failure. Without an eligible entry it only counts the failure. |
| Ticket.Feed | driver-bm1397.c:1437-1521 | A run of checked nonces keeps the ticket number a table index. |
| Ticket.FeedPending | driver-bm1397.c:1441-1478 | Before the window ends, a freshly set ticket fed nonces that are never below `d_hi_limit` has counted each one. Those after the delay are ticket nonces, and it has noted whether one was below `d_low_limit`. |
| Ticket.FeedDecides | driver-bm1397.c:1441-1518 | After exactly `i32_nonces_count + TICKET_DELAY` such nonces, a freshly set ticket is confirmed with no failures if one was below `d_low_limit`, else reselected by the failure rule. |
| Nonce.JobId | driver-bm1397.c:1297 | The job id is the byte just before the CRC byte of the 9-byte reply. |
| Nonce.NonceOf | driver-bm1397.c:1298 | The nonce is bytes 2..5 read big-endian, and writing it big-endian gives those bytes back. |
| Nonce.Slot | driver-bm1397.c:1363 | `job_id & 0xfc` is the multiple of 4 at or just below the job id. |
| Nonce.Midstate | driver-bm1397.c:1372 | `job_id & 3` is a midstate index below 4. |
| Nonce.SlotMidstateSplit | driver-bm1397.c:1363-1372 | Slot plus midstate is the job id. |
| Nonce.SlotMidstateInjective | driver-bm1397.c:1363-1372 | Slot and midstate determine the job id. |
| Nonce.SlotOfSent | driver-bm1397.c:1363-1372 | Job ids w..w+3 of a slot w give back slot w and midstates 0..3. |
| Nonce.SpreadId | driver-bm1397.c:1311 | The proportional chip of an address byte is never negative. `SpreadInRange` bounds it by chips. |
| Nonce.SpreadInRange | driver-bm1397.c:1311 | `floor(buf[4] / (256 / chips))` is `buf[4]*chips/256`, always a chip index. |
| Nonce.AsicId | driver-bm1397.c:1308-1319 | The chip is always an index below `chips`. It is the raw index when that is a chip, else `chips - 1`. |
| Nonce.AsicIdSpread | driver-bm1397.c:1311-1319 | Without the `nb2chip` table the clamp never fires. |
| Freq.FreqBounding | driver-bm1397.c:150-157 | The lower bound wins below it, the upper bound above it, and otherwise the value comes back. The result lies between ordered bounds. |
| Freq.LimitFreq | driver-bm1397.c:254-272 | A GSF or GSFM clamps to [100, 800] MHz, letting 0 through when zero is allowed. Anything else clamps to [100, 300]. A frequency already in range is kept. |
| Freq.Band | driver-bm1397.c:925-941 | fb is 1 or 2 and fc1 is 1, 2 or 3. |
| Freq.Ceil | driver-bm1397.c:945 | `ceil(x)` is the least integer at or above x. |
| Freq.PlanFor | driver-bm1397.c:916-975 | 0 powers down with fa = 0 and all dividers 1. Otherwise fc2 = 5 and fb and fc1 are in range. A plan that did not fail sets `basef / (fb*fc1*fc2)`. A failed plan sets the default 200 MHz. fa never exceeds 0xf0. |
| Freq.ScaledRange | driver-bm1397.c:925-945 | After the band choice `f1*fb*fc1*fc2 / freq_mult` lies in [100, 200]. |
| Freq.PlanNeverFails | driver-bm1397.c:945-956 | For any non-zero request fa lies in [100, 200], so the `[0x10, 0xf0]` failure marker is never reached. |
| Freq.PlanRoundsUp | driver-bm1397.c:945-974 | The frequency set is the clamped request rounded up to the grid of `25 / (fb*fc1*fc2)` MHz: at or above it, and less than one grid step above. |
| Freq.PackDividers | driver-bm1397.c:964 | The packed byte holds fc1's low nibble in its high half and fc2's low nibble in its low half. |
| Freq.UnpackDividers | driver-bm1397.c:2311-2312 | Both dividers read from the byte are below 16. |
| Freq.DividersRoundTrip | driver-bm1397.c:2311-2312 | Dividers of 0..15 packed into one byte, fc1 high and fc2 low, are read back unchanged by `gsf_reply`. (With line 964.) |
| Freq.FreqRegister | driver-bm1397.c:905-972 | The register value the frequency command writes is four bytes. |
| Freq.FreqCommand | driver-bm1397.c:905-972 | The frequency command is 9 bytes, addresses register BM1397FREQ, carries the register value in bytes 4..7 and ends in 0. |
| Freq.PrefreqCommand | driver-bm1397.c:901-902 | The prefreq command is 9 bytes with the same broadcast or single-chip header as the frequency command. It writes 0f 0f 0f to register 0x70 and ends in 0. |
| Freq.CalcGsfFreq | driver-bm1397.c:874-1018 | Something is sent exactly when the chip is -1 or one of the device's chips and the frequency is 0 or not the one that failed before. The frequency is then broadcast (0x51, address 0) exactly when the chip is -1 or the frequency is 0, and otherwise goes to the chip's address with 0x41. The prefreq command goes the same way. The register value is the plan's. |
| Freq.PowerDownBroadcasts | driver-bm1397.c:915-921 | A power-down to any valid chip is sent to every chip, with fa 0 and all dividers 1. (With lines 958-965.) |
| Freq.OneChipAddressed | driver-bm1397.c:998-1018 | A non-zero frequency for an existing chip that did not fail before goes to that chip's address alone. |
| Freq.GsfReply | driver-bm1397.c:2297-2326 | A result comes only from a frame of rx_len bytes for register BM1397FREQ, and it names a chip below `chips`. |
| Freq.ReplyReadsPlan | driver-bm1397.c:2297-2326 | A chip echoing the register value of a frequency command is read back by `gsf_reply` as exactly the frequency the plan set. (With lines 945-974.) |
| Freq.DefaultIs200 | driver-bm1397.c:905-955 | The default command bytes 0xf0 0x02 0x35 read back as 200 MHz. |
| Rx.FindSync | driver-bm1397.c:2362-2391 | The scan stops at the first 0xAA followed by 0x55 or by nothing, at or after its start, or at the end. No position before it is one. |
| Rx.Resynced | driver-bm1397.c:2359-2383 | The rubbish skip leaves an aligned buffer as it is and never grows it. `ResyncedShape` states the rest. |
| Rx.ResyncedShape | driver-bm1397.c:2359-2383 | The rubbish skip drops a prefix. After it the buffer is empty or starts with 0xAA, followed by 0x55 unless the 0xAA is the last byte. No sync position after the first byte was skipped. |
| Rx.Take | driver-bm1397.c:2357-2406 | One pass of the inner loop always shrinks the buffer. `TakeFrame` and `TakeDumps` state what it cuts and drops. |
| Rx.TakeFrame | driver-bm1397.c:2357-2406 | Every frame handed on is exactly rx_len bytes and opens with 0xAA 0x55. It is consumed whole: the buffer loses it and the rubbish before it and keeps the rest. Its CRC flag holds exactly when it is a well-formed chip reply. (With lines 2486-2488.) |
| Rx.TakeDumps | driver-bm1397.c:2371-2376 | An unaligned buffer with no sync position after its first byte is emptied. |
| Rx.ShortReplyAdjustUnreachable | driver-bm1397.c:2393-2400 | With rx_len 9 the `len--` adjustment never applies, and every frame is rx_len bytes. |
| Rx.Frames | driver-bm1397.c:2357-2489 | After the inner loop fewer than rx_len bytes remain, or a pass found no frame. |
| Rx.FramesConsume | driver-bm1397.c:2357-2489 | With n frames cut, the loop consumed at least `n * rx_len` bytes. |
| Rx.FramesLength | driver-bm1397.c:2399-2400 | Every frame the loop cuts is rx_len bytes long. |
| Rx.CrcChecked | driver-bm1397.c:2402-2406 | The CRC flag of a cut frame is the receive check. |
| Rx.RxBuffer.constructor | driver-bm1397.c:2330-2336 | A zeroed buffer of BUFFER_MAX bytes, empty. |
| Rx.RxBuffer.Append | driver-bm1397.c:2351-2352 | The bytes read are appended to those not yet consumed. |
| Rx.RxBuffer.Drop | driver-bm1397.c:2378-2379 | `memmove` and `pos -= i` drop exactly the first i bytes. (With lines 2486-2488.) |
| Rx.RxBuffer.ScanSync | driver-bm1397.c:2362-2391 | The scan loop stops at the next sync position. |
| Rx.RxBuffer.Resync | driver-bm1397.c:2359-2383 | The in-place rubbish skip leaves exactly the resynchronised buffer. |
| Rx.RxBuffer.Next | driver-bm1397.c:2357-2406 | One pass of the inner loop in place leaves exactly the buffer and the frame of the pure pass. (With lines 2486-2488.) |
| Rx.RxBuffer.CutFrame | driver-bm1397.c:2386-2406 | The first rx_len bytes are cut as the frame with its CRC flag and dropped. (With lines 2486-2488.) |
| Rx.RxBuffer.DrainPass | driver-bm1397.c:2357-2406 | One pass of the inner loop shrinks the buffer and keeps the loop's account: with a frame, the frames cut so far plus those of what is left are the frames of the read; without one, the loop is done and what is left is its remainder. |
| Rx.RxBuffer.Drain | driver-bm1397.c:2357-2489 | The inner loop in place cuts exactly the frames of the pure loop, in order, and leaves its remainder. |
| Work.NextJobId | driver-bm1397.c:2145-2147 | The job id moves on by `add_job_id` or wraps to `min_job_id`, and never passes `max_job_id`. |
| Work.RollLinear | driver-bm1397.c:2145-2147 | From `min_job_id` the k-th roll is `min + k*add` while that fits. |
| Work.RollWraps | driver-bm1397.c:2145-2147 | The roll after the last one that fits wraps back to `min_job_id`. |
| Work.DriverRollPeriod | driver-bm1397.c:2145-2147 | With min 0x10, step 4 and max 0x7f the ids run 0x10, 0x14, …, 0x7c and start again, so a slot is reused only every 28 works. |
| Work.Lookup | driver-bm1397.c:1362-1368 | A reply finds work only in the slot `job_id & 0xfc`, only when that slot exists and is active, and then it finds that slot's work. |
| Work.LookupPlaced | driver-bm1397.c:1362-1372 | Work placed in slot j is found for every job id j..j+3 a chip answers with. (With lines 2148-2150.) |
| Work.LookupOthers | driver-bm1397.c:1362-1368 | Placing work in slot j changes no lookup of another slot. (With lines 2148-2150.) |
| Work.LookupInactive | driver-bm1397.c:1364-1368 | With no slot active no reply finds its work. (With lines 1220-1222.) |
| Work.WorkSlots.constructor | driver-bm1397.c:2892-2945 | The zeroed work table: every slot empty and inactive, job id 0. |
| Work.WorkSlots.Roll | driver-bm1397.c:2145-2150 | The job id rolls. Only the slot at the new id changes: it gets the new work and becomes active, and its previous occupant is handed back. |
| Work.WorkSlots.Find | driver-bm1397.c:1362-1368 | The exact-slot test returns the lookup of the job id on the current table. |
| Work.WorkSlots.ClearActive | driver-bm1397.c:1215-1224 | Every slot becomes inactive and an update is due. The work itself is kept. |
| Device.NewAsic | driver-bm1397.c:2416-2423 | A new chip record has an empty, valid history, no nonces, and frequency reply -1. |
| Device.Anchored | driver-bm1397.c:415-416 | Every chip history is anchored at now, and no chip is added or lost. |
| Device.AllWiped | driver-bm1397.c:332-344 | `gc_wipe_all` wipes every chip history at now, and no chip is added or lost. |
| Device.GhAdvanced | driver-bm1397.c:402-492 | `gh_offset` keeps the device invariant and changes only the hashrate history and the chip histories. |
| Device.GhFirstCall | driver-bm1397.c:411-417 | On the first call the hashrate history and every chip history are anchored at now, and the wipe flag is ignored. |
| Device.GhWipe | driver-bm1397.c:420-446 | After the first call a wipe empties the hashrate history and every chip history. |
| Device.GhNoWipe | driver-bm1397.c:418-479 | Without a wipe `gh_offset` leaves the chip histories alone. |
| Device.NonceAdded | driver-bm1397.c:496-528 | `add_gekko_nonce` keeps the device invariant and changes only the histories. |
| Device.GhRecorded | driver-bm1397.c:504-516 | Recording the sample keeps the invariant and changes only the hashrate history. |
| Device.ChipNoted | driver-bm1397.c:518-525 | Noting the nonce for chip k keeps the invariant and changes only the chip histories. |
| Device.NonceAddedCounts | driver-bm1397.c:502-525 | After the advance, the hashrate totals gain one nonce and the ticket difficulty. A named chip gains one nonce over its advanced total, and every other chip is as `gh_offset` left it. |
| Device.TicketSet | driver-bm1397.c:776-848 | `set_ticket` keeps the device invariant. The ticket becomes what ticket selection prescribes for the device's `chips*cores`, and the state and counters are untouched. |
| Device.HistoriesWiped | driver-bm1397.c:842-847 | The shared wipe changes only the histories and `frequency_computed`, which becomes 0. (With lines 2846-2851.) |
| Device.HistoriesWipedEmpty | driver-bm1397.c:842-847 | Once both histories are anchored, the wipe empties the hashrate history, every chip history and the job history at now. (With lines 2846-2851.) |
| Device.TicketSetWipes | driver-bm1397.c:828-847 | A ticket change resets `frequency_computed`. After the first `gh_offset` it empties the hashrate history and every chip history, and after the first `job_offset` the job history. |
| Device.TicketChecked | driver-bm1397.c:1437-1521 | The ticket check keeps the device invariant and never touches the state or the counters. |
| Device.Reselected | driver-bm1397.c:1454-1517 | The reselection keeps the device invariant and touches only ticket and histories. |
| Device.TicketCheckedTicket | driver-bm1397.c:1437-1521 | The ticket the device ends with is the one the ticket state machine prescribes. |
| Device.TicketCheckedKeeps | driver-bm1397.c:1437-1521 | A check that asks for no reselection touches nothing but the ticket. |
| Device.Tallied | driver-bm1397.c:1302-1305 | The tally of address bytes keeps its 256 entries. |
| Device.ChipOf | driver-bm1397.c:1308-1320 | The chip a reply is charged to is always one of the device's chips. |
| Device.Duplicated | driver-bm1397.c:1322-1340 | The duplicate branch keeps the device invariant. |
| Device.Accepted | driver-bm1397.c:1529-1558 | The accept branch keeps the device invariant. |
| Device.Credited | driver-bm1397.c:1533-1552 | The counters of the accept branch keep the invariant and the number of chips. |
| Device.Remembered | driver-bm1397.c:1302-1344 | The fresh-nonce bookkeeping keeps the device invariant. |
| Device.NonceHandled | driver-bm1397.c:1279-1570 | `compac_gsf_nonce` for one reply keeps the device invariant. |
| Device.DuplicateOnlyCounts | driver-bm1397.c:1302-1340 | A nonce equal to its chip's last nonce changes only the duplicate counters, the tallies and the state. The ticket, the histories, the accepted count and the last nonce stay. The state becomes MINING_DUPS exactly when `dups` becomes 1, or stays MINING_DUPS. |
| Device.FreshNonceRemembered | driver-bm1397.c:1342-1344 | A fresh nonce becomes `prev_nonce` and the chip's last nonce, so the same reply next is a duplicate. |
| Device.UnmatchedDumped | driver-bm1397.c:1423-1433 | A reply whose work was not found changes neither the ticket, the histories nor the accepted count. It is counted as a nonce. |
| Device.AcceptedCounts | driver-bm1397.c:1437-1558 | An accepted nonce counts once for the device and the chip, ends the duplicate run, clears `failing`, and leaves the ticket the state machine prescribes. |
| Device.GsfApplied | driver-bm1397.c:2297-2326 | A frequency reply changes nothing but chip records. A frame that is not one changes nothing. |
| Device.ChippyFrame | driver-bm1397.c:2344-2345 | The chip-count request goes out as 7 bytes: 55 AA, then 52 05 00 00, then 0x0A with the CRC of the request's first 32 bits OR-ed in. |
| Device.Routed | driver-bm1397.c:2408-2484 | Routing one frame keeps the device invariant. |
| Device.ChipReplyCounts | driver-bm1397.c:2410-2428 | During the count each `13 97` reply appends exactly one new chip record and leaves the state in CHIP_COUNT_XX. |
| Device.OtherReplySettles | driver-bm1397.c:2429-2447 | Another reply during the count ends it: with chips, CHIP_COUNT_OK with `init_count` cleared; without, RESET. |
| Device.MiningQueues | driver-bm1397.c:2449-2478 | In MINING a frame is queued exactly when it was not used as a frequency reply. It is queued unchanged, and the device is then unchanged. |
| Device.OtherStatesIgnore | driver-bm1397.c:2479-2483 | In other states no frame is queued and only a frequency reply changes anything. |
| Device.RoutedAll | driver-bm1397.c:2357-2489 | Routing the frames of a read keeps the invariant and queues at most one candidate per frame. |
| Device.RoutedAllSnoc | driver-bm1397.c:2357-2489 | Routing one more frame extends the fold by exactly one routing step. |
| Device.MiningQueuesAll | driver-bm1397.c:2449-2478 | In MINING, with no frequency reply among them, every frame of a read is queued in order and the device is unchanged. |
| Device.Settled | driver-bm1397.c:2491-2511 | The settle keeps the invariant. |
| Device.SettleDecides | driver-bm1397.c:2491-2511 | On a silent read or a short buffer a running count always ends. It is CHIP_COUNT_OK with `init_count` cleared exactly when at least `expected_chips` and at least one chip answered, else RESET. |
| Device.ListenBegun | driver-bm1397.c:2342-2349 | In CHIP_COUNT each pass moves to CHIP_COUNT_XX. Other states are left alone. |
| Device.NextInitCount | driver-bm1397.c:2993 | `(*init_count)++` on a `uint8_t`: one more, or 0 after 255. |
| Device.Prepared | driver-bm1397.c:2985-3021 | `compac_prepare` changes only the count and the nodev/disabled flags. |
| Device.PreparePolicy | driver-bm1397.c:2992-3019 | The count is the wrapped increment. The device is forced off exactly on a non-zero multiple of 5. It is disabled exactly above 10 on the others. |
| Device.PrepareWraps | driver-bm1397.c:2993-3019 | After 255 the count wraps to 0 and nothing happens to the device. |
| Device.Reported | driver-bm1397.c:2861-2869 | The tail reports `xhashes * 0xffffffff` and restarts both totals. |
| Device.ResetDone | driver-bm1397.c:2832-2853 | The RESET branch keeps the invariant. It starts with the record's part of `compac_flush_work`, which marks new work due. |
| Device.Flushed | driver-bm1397.c:1215-1223 | The record's part of `compac_update_work`: new work is due, and nothing else in the record changes. |
| Device.Restarted | driver-bm1397.c:2839-2842 | The RESET counters: one more failure, the reset duplicates cleared, INIT, the reset time now. The chips, the ticket, both histories, the port count and the work flags are kept. |
| Device.Ramped | driver-bm1397.c:2792-2812 | The OPEN_CORE branch keeps the invariant. |
| Device.Started | driver-bm1397.c:2813-2829 | OPEN_CORE_OK enters MINING with new work due and the duplicate clock restarted, and keeps the chips, the ticket, the histories, the job id and the failure count. |
| Device.Scanned | driver-bm1397.c:2743-2870 | Every `compac_scanwork` step keeps the invariant. |
| Device.InitStartsCount | driver-bm1397.c:2762-2772 | INIT goes to CHIP_COUNT with no chips and no ramp, reporting nothing. |
| Device.CountTimesOut | driver-bm1397.c:2774-2781 | A chip count still running after 5 s goes to RESET, and nothing else changes. Before that it stays. |
| Device.CountOkToMining | driver-bm1397.c:2782-2829 | CHIP_COUNT_OK sets the ticket that `set_ticket(0.0, true)` chooses for chips times cores (driver-bm1397.c:1079). When that picks an entry, `frequency_computed` is 0 and the anchored hashrate, chip and job histories are emptied; otherwise nothing but the state changes. It goes to OPEN_CORE_OK, then to MINING with new work due and the ticket and chips kept. |
| Device.ResetReinits | driver-bm1397.c:2832-2853 | RESET always goes to INIT with one more failure, the reset duplicates cleared, the reset time now, new work due and `frequency_computed` 0. The port count is incremented. Once anchored, both histories and every chip history are emptied. |
| Device.DupsBackToMining | driver-bm1397.c:2854-2856 | MINING_DUPS returns to MINING and reports exactly as MINING does. |
| Device.OpenCoreRamps | driver-bm1397.c:2792-2812 | OPEN_CORE picks a job id within `max_job_id`. It moves on to OPEN_CORE_OK exactly after more than `cores * add_job_id`, else ramps by `add_job_id`. |
| Device.NoDeviceStops | driver-bm1397.c:2756-2757 | A device taken off the bus is left alone and −1 is reported. |
| Compac.CompacInfo.constructor | driver-bm1397.c:2892-2956 | The record as detection leaves it: INIT, no chips, zeroed counters, empty histories and an empty work table. |
| Compac.CompacInfo.AnchorChips | driver-bm1397.c:415-416 | The loop anchors every chip history at now. |
| Compac.CompacInfo.WipeChips | driver-bm1397.c:332-344 | `gc_wipe_all` wipes every chip history at now. |
| Compac.CompacInfo.GhOffset | driver-bm1397.c:402-492 | The in-place `gh_offset` leaves exactly `Device.GhAdvanced` of the old state. |
| Compac.CompacInfo.AddGekkoNonce | driver-bm1397.c:496-528 | The in-place `add_gekko_nonce` leaves exactly `Device.NonceAdded`. |
| Compac.CompacInfo.RecordSample | driver-bm1397.c:504-516 | The hashrate half of `add_gekko_nonce` in place leaves exactly `Device.GhRecorded`. |
| Compac.CompacInfo.NoteChip | driver-bm1397.c:518-525 | The chip half in place leaves exactly `Device.ChipNoted`. |
| Compac.CompacInfo.SetTicket | driver-bm1397.c:776-848 | The in-place `set_ticket` leaves exactly `Device.TicketSet`. It sends a frame exactly when the ticket changes, and that frame is the ticket frame for the new mask. |
| Compac.CompacInfo.WipeHistories | driver-bm1397.c:842-847 | The shared wipe in place. |
| Compac.CompacInfo.TicketCheck | driver-bm1397.c:1437-1521 | The ticket check in place leaves exactly `Device.TicketChecked`. |
| Compac.CompacInfo.Reselect | driver-bm1397.c:1454-1517 | The reselection in place leaves exactly `Device.Reselected`. |
| Compac.CompacInfo.HandleNonce | driver-bm1397.c:1279-1570 | `compac_gsf_nonce` in place leaves exactly `Device.NonceHandled`. |
| Compac.CompacInfo.CountDuplicate | driver-bm1397.c:1322-1340 | The duplicate branch in place. |
| Compac.CompacInfo.Remember | driver-bm1397.c:1302-1344 | The tallies and last nonces in place. |
| Compac.CompacInfo.Accept | driver-bm1397.c:1529-1558 | The accept branch in place. |
| Compac.CompacInfo.Credit | driver-bm1397.c:1533-1552 | The accept counters in place. |
| Compac.CompacInfo.GsfReply | driver-bm1397.c:2297-2326 | `gsf_reply` in place. It reports whether the frame was used. |
| Compac.CompacInfo.Route | driver-bm1397.c:2408-2484 | The routing switch in place for one frame. It returns the frame queued, if any. |
| Compac.CompacInfo.Listen | driver-bm1397.c:2338-2511 | One outer pass of `compac_listen2`. The chip-count request is sent exactly in CHIP_COUNT. The bytes read are appended, the frames of the pure parse loop are routed in order, and the settle runs on the read size and what is left. |
| Compac.CompacInfo.Begin | driver-bm1397.c:2342-2349 | The chip-count request is sent exactly in CHIP_COUNT, and is the framed `52 05 00 00 0A`. The state becomes CHIP_COUNT_XX. |
| Compac.CompacInfo.RouteAll | driver-bm1397.c:2357-2489 | The frames of one read are routed in order, as the pure fold does. |
| Compac.CompacInfo.Settle | driver-bm1397.c:2491-2511 | The settle in place. |
| Compac.CompacInfo.Prepare | driver-bm1397.c:2985-3021 | `compac_prepare` in place. |
| Compac.CompacInfo.ChainInactive | driver-bm1397.c:2782-2789 | The CHIP_COUNT_OK branch in place leaves exactly `Device.TicketSet(0.0, true)` followed by OPEN_CORE_OK, and returns the ticket-mask frame exactly when an entry is chosen. |
| Compac.CompacInfo.ScanWork | driver-bm1397.c:2743-2870 | One `compac_scanwork` step in place leaves exactly `Device.Scanned` and returns its report. A RESET step leaves no work slot active, and every other step leaves the active flags alone. |
| Compac.CompacInfo.StartCount | driver-bm1397.c:2762-2772 | The INIT branch in place: no chips, no ramp, CHIP_COUNT, and the rest of the record unchanged. |
| Compac.CompacInfo.Enter | driver-bm1397.c:2777-2789 | A move of `mining_state` alone keeps the invariant and changes nothing else. |
| Compac.CompacInfo.Report | driver-bm1397.c:2861-2869 | The scan's tail in place leaves exactly `Device.Reported`: it returns `xhashes * 0xffffffff` and restarts both totals. |
| Compac.CompacInfo.Ramp | driver-bm1397.c:2792-2812 | The OPEN_CORE branch in place. |
| Compac.CompacInfo.StartMining | driver-bm1397.c:2813-2829 | The OPEN_CORE_OK branch in place. |
| Compac.CompacInfo.ResetDevice | driver-bm1397.c:2832-2853 | The RESET branch in place leaves exactly `Device.ResetDone`, and `compac_flush_work` leaves no work slot active, so by `Work.LookupInactive` no stale reply finds its work. |
| Compac.CompacInfo.Restart | driver-bm1397.c:2839-2842 | The RESET counters in place. |

## Left out

- USB transport (`usb_write`, `usb_read_timeout`, `usb_nodev`, `compac_flush_buffer` (the read half of `compac_flush_work`), `compac_toggle_reset`, and of `compac_send_chain_inactive` its chain-inactive, chippy, init and baud sends, the `bauddiv` and FTDI baud setting, and its `calc_gsf_freq` broadcast, whose frames `Freq.CalcGsfFreq` gives; its `set_ticket(0.0, true)` is modelled). The model produces the bytes a send emits and takes the bytes a read returns as a parameter. The sleeps are left out.
- Threads, mutexes, condition variables and the klist nonce queues. The nonce queue is a sequence of frames returned by `Listen`, and the per-port counter array becomes one counter on the record.
- The work search (driver-bm1397.c:1386-1433) and `test_nonce_value`, `submit_nonce`, `inc_hw_errors_n`. `HandleNonce` takes the difficulty found and submitted as inputs. The search over `cur_attempt` / `JOB_ID_ROLL` is not modelled, and neither is the AsicBoost `micro_job_id` rewrite of the work.
- `gsf_calc_nb2c`, `ping_freq` and `compac_update_rates`. The `nb2chip` table and `nb2c_setup` are fields of the configuration.
- The side effects of `calc_gsf_freq` apart from what it sends: storing `freq_fail`, the per-chip `f_frequency` and `f_frequency_reply`, `info->frequency` and the log line. `Freq.CalcGsfFreq` gives the two commands, each sent twice, and the guards that send nothing.
- Floating-point statistics: `gekko_gh_hashrate`, `noncepercent`, the average, minimum and maximum job intervals in `add_gekko_job`, `task_ms`, and the ramp, tune and plateau heuristics of `compac_mine2`.
- Clocks: the stamps that only feed statistics or logging are dropped. These are `start_time`, `monitor_time`, `tune_limit` and the like.
  - `last_dup_time` and `last_reset` are kept as the code writes them.
  - The chip-count timeout of `compac_scanwork` does not read `last_reset`. It takes the elapsed milliseconds `ms_tdiff(&now, &info->last_reset)` as the independent input `sinceReset`.
  - The sleeps take no time. So the reset stamp `Device.Restarted` writes is the scan's `now`, where the code stamps the time again after `compac_toggle_reset` and `compac_prepare` have slept.
- Detection, reporting, the API and logging (`bm1397_detect_one`, `bm1397_api_stats`, `bm1397_statline`, `bm1397_api_set`, `dumpbuffer`, `applog`).
- `busy_work`, `init_task` and the rest of `compac_mine2` apart from the job-id roll. The OPEN_CORE branch models only the job-id choice and the ramp. The task fields `task_hcn` and `zero_check`, which `compac_send_chain_inactive` and OPEN_CORE set, are not in the model, and neither is the short-lived OPEN_CORE that `compac_send_chain_inactive` enters before CHIP_COUNT_OK overwrites it with OPEN_CORE_OK.
- The frequency bookkeeping of the INIT branch (`frequency_syncd`, and the clamp of `frequency_start` to `frequency_requested`). The model does not keep these rate-tuning fields.
- Device.ChipReplyCounts: each `13 97` reply appends a chip to the unbounded sequence `asics`. The code writes `info->asics[info->chips]` into a fixed-size array declared in driver-bm1397.h, with no bounds check (driver-bm1397.c:2416). The model does not bound the chip count and does not follow that out-of-range write.
- Integer widths: hash totals (`uint64_t`) and difficulty sums are unbounded integers here. The 32-bit product `chips * cores` and the 8-bit `init_count` are modelled with their wrap-around.
- Utils.StuffReverse: requires `dst` and `src` to be different arrays. An overlapping call in C is not modelled.
- Frame.Send2: requires the command buffer and the request to be different arrays, as `info->cmd` and a local request always are.
- Ticket.SetTicket: requires 0 <= diff < 2^32, because `(uint32_t)floor(diff)` is undefined outside that range. Every call in the driver passes 0.0.
- Device.TicketSet: the same range requirement as `Ticket.SetTicket`.
- Nonce.SpreadId: uses exact rational division instead of the double rounding of `floor(buf[4] / (256.0 / chips))`.
- Freq.PlanFor: uses exact reals instead of single-precision floats. The frequency the device reports can differ in the last float bit.
- ChipRing.GcOffset: the per-chip history is modelled on values, and the device record holds a sequence of chip records. The aliasing of `&info->asics[i].s_bm1397_chip` is not modelled.
