# Verified models of four Linux driver examples

This project models the four drivers of the repository that hold state, arithmetic or a step order of their
own, and proves properties of them over every input, every run or every interleaving. `dafny verify
dfyconfig.toml` checks all of it.

| driver | modules |
|---|---|
| W25Q32 SPI flash (`device_drivers/w25q32_drv/w25q32_drv.c`) | `FlashChip`, `FlashSplit`, `FlashTheorems`, `FlashAppend`, `FlashRuns`, `FlashDriver` |
| pseudo character device (`11_pseduo_char_driver/pseduo_char_driver.c`) | `PseudoSpec`, `PseudoDevice`, `PseudoConcurrent`, `PseudoProgress` |
| poll example (`17_poll_example_prog/poll_example_prog.c`) | `PollMachine`, `PollTheorems`, `PollProgress`, `PollDevice` |
| AT24C256 EEPROM (`device_drivers/at24c256_drv/at24c256_drv1.c`) | `HexText`, `Eeprom`, `EepromTheorems` |

`Common` and `Modular` hold the seek rule and the arithmetic of address masks.

**Form.** Each driver's file operations are methods of a class whose fields they update in place, with the loops and
buffers of the C code. Each method is proved equal to a step of a specification on values (`FlashRuns.Do`,
`PseudoSpec.Serve`, `PollMachine.Next`, `Eeprom.Do`), and the theorems are about that specification: about whole runs
of it, or, for the pseudo device and the poll example, about all interleavings of its smallest steps. For the poll
example each entry point, run alone, extends a run of the step machine, and the device object carries that run.

**Code and intent.** The shipped code is what is modelled. Where it departs from what it evidently means to do, the
departure is a parameter, and a lemma says for exactly which inputs the shipped code meets the intent:

- Flash, `Build(window, repaired)`; the shipped driver is `Build(4096, false)`. The window is the 12-bit address mask.
  A repaired build accumulates `tmp_index`, lays each header over the bytes sent so far, and advances the position by
  the byte count. Shipped: a write is one flat write exactly when it spans at most two pages (`SplitExact`), lands where
  asked exactly when it also ends below address 4096 (`WriteExact`), and the write advance is right only for a write at
  position 0 shorter than the window (`AdvanceExact`). Two shipped writes leave the memory of one exactly when the
  second is empty, or the position is a multiple of 4096 and both fit in two pages (with a variant for an empty first
  part), and they leave the position of one in few cases more (`AppendExact`, `ShippedMemoryExact`,
  `ShippedPositionExact`); two one-byte writes at position 10 fail both (`ShippedAppendFails`). `ShippedExact` and the
  three lemmas just named state the results for the shipped build in plain arithmetic.
- Flash, a lost Write Enable: `w25q32_write_instruction` tells its caller nothing when its transfer fails
  (`device_drivers/w25q32_drv/w25q32_drv.c:81-86`). A write then reports success although the chip ignored a frame;
  `LostExact` says when that costs data.
- Pseudo device, `unlocks`: the shipped no-space exit of `psd_write` returns with `psd_mutex` held. It is taken by a
  write of no bytes or at the end of the buffer; such a write is the only way to abandon the mutex (`AbandonedExact`,
  `ProgressExact`), one is enough on any handle (`DeadlockReached`), and no call is ever served afterwards
  (`NeverAgain`).
- Poll, events asked for: `etx_poll` clears `can_read` whatever the caller asked for. A store is announced exactly when
  the thread that clears its flag asks for POLLIN (`AnnouncedExact`); a thread that asks for POLLOUT alone drops it
  (`StoreSwallowed`).
- EEPROM, `repaired`: the shipped digit map gives letters the values 0 to 5. A number survives printing and parsing
  exactly when none of its hex digits is a letter (`ParsePrinted`, `AddressTextExact`, `ByteTextExact`).

The EEPROM driver's comments and usage text say that a write rolls over inside its page
(`device_drivers/at24c256_drv/at24c256_drv1.c:41`, `:58`); the code advances through the whole memory modulo 32768
(`:221`), and so does the model.

**Assumed environment.**

- The W25Q32 (`FlashChip`): 256-byte pages; a page program ANDs its data into the cells and wraps inside its page; it is
  carried out only while BUSY is clear and WEL is set, clears WEL, and makes the chip busy for some number of status
  polls; Write Enable is ignored while busy; a page program without data bytes does nothing; a read runs through all of
  memory.
- Any kernel call the flash driver makes may fail: allocation, user copies, and each SPI transfer. A transfer that fails
  never reaches the chip and leaves its receive buffer alone. Status polls fail finitely often, and BUSY eventually
  clears.
- `copy_from_user` stores the bytes before a fault and zeros after it. `copy_to_user` stops at the fault.
- `mutex_lock_interruptible` gives up only when it would have to wait. The kernel allows one call per open handle at a
  time.
- The poll example runs under sequential consistency. The kernel's own check before a poller sleeps, and `wake_up`, are
  single steps. `poll()` passes on only the events its caller asked for, which may differ from call to call.
- The AT24C256 stores one byte per write message at the address in its two address bytes, of which the top bit is
  ignored. sysfs hands a store a zero-padded buffer.

## Model

| member | source | states |
|---|---|---|
| Common.SeekTarget | device_drivers/w25q32_drv/w25q32_drv.c:103-124 | A seek is accepted exactly when base plus offset is an index into the device, base being 0, the position or the last byte; unknown whence values are rejected. The pseudo device has the same rule. |
| FlashSplit.Clamp | device_drivers/w25q32_drv/w25q32_drv.c:186-190 | A transfer keeps its length unless it would reach the end of the chip, and is then cut to end exactly one byte short of it. |
| FlashSplit.FrameStaysInPage | device_drivers/w25q32_drv/w25q32_drv.c:211-251 | Before every frame the masked address is (start + bytes sent) modulo the window, the frame stays inside its 256-byte page, and every frame after the first starts a page. |
| FlashSplit.ChunksFitPages | device_drivers/w25q32_drv/w25q32_drv.c:211-254 | For every start and length the chunk lengths add up to the whole transfer and no chunk crosses a page. |
| FlashSplit.OptimalSplit | device_drivers/w25q32_drv/w25q32_drv.c:213-237 | No way of cutting the same bytes into page-respecting frames uses fewer frames than the loop. |
| FlashSplit.PayloadStartExact | device_drivers/w25q32_drv/w25q32_drv.c:228-236 | A frame's payload starts right after the bytes already sent exactly for the first two frames (always, once the index accumulates); its header never reaches past bytes already sent. |
| FlashSplit.SourceExact | device_drivers/w25q32_drv/w25q32_drv.c:235 | Which user byte goes out as the i-th byte: the i-th itself exactly within the first two pages touched, an earlier one after that. |
| FlashSplit.ProgramPageIsFlat | device_drivers/w25q32_drv/w25q32_drv.c:222 | A page program that stays inside its page does to memory what a flat byte-by-byte AND does, despite the chip's wrap in the page. |
| FlashSplit.FramesActFlat | device_drivers/w25q32_drv/w25q32_drv.c:211-254 | After any number of the loop's frames, memory is one flat AND of the bytes those frames carried. |
| FlashTheorems.WrittenIsFlat | device_drivers/w25q32_drv/w25q32_drv.c:176-261 | Every complete write, of any start and length, acts as one flat AND of the bytes the loop sends, modulo the window. |
| FlashTheorems.ThirdPageLost | device_drivers/w25q32_drv/w25q32_drv.c:235 | For every shipped write reaching a third page, contents whose byte at the start of that page is not stored. |
| FlashTheorems.SplitExact | device_drivers/w25q32_drv/w25q32_drv.c:211-254 | The split frames equal one flat write of the user's bytes for all contents if and only if the clamped write spans at most two pages or the index accumulates. |
| FlashTheorems.RepairedIsFlat | device_drivers/w25q32_drv/w25q32_drv.c:235 | With an accumulating index the split refines the flat write for every start and length. |
| FlashTheorems.BeyondWindowUntouched | device_drivers/w25q32_drv/w25q32_drv.c:183-184 | No write changes a cell beyond the address window, wherever the file position is. |
| FlashTheorems.WriteExact | device_drivers/w25q32_drv/w25q32_drv.c:176-261 | A write ANDs byte i into cell pos + i and changes nothing else, for all contents, if and only if it sends nothing or ends inside the window and (shipped) spans at most two pages. |
| FlashTheorems.RoundTripExact | device_drivers/w25q32_drv/w25q32_drv.c:131-261 | Writing erased cells, seeking back and reading as much returns the bytes, for all contents, if and only if the masked range ends inside the window and (shipped) spans at most two pages. |
| FlashTheorems.AdvanceStaysOnChip | device_drivers/w25q32_drv/w25q32_drv.c:171-258 | Both position advances leave the position on the chip. |
| FlashTheorems.AdvanceExact | device_drivers/w25q32_drv/w25q32_drv.c:171-258 | The shipped read advance is right exactly for positions below the window, the shipped write advance exactly for a write at 0 shorter than the window. |
| FlashTheorems.ReadsAppendExact | device_drivers/w25q32_drv/w25q32_drv.c:131-174 | Reading m bytes and then n returns what one read of m + n does, for all contents, if and only if the two are as long as the one (they are unless the end of the chip cuts the one short after a shipped position has fallen back) and the second returns nothing or starts inside the window. |
| FlashTheorems.ShippedExact | device_drivers/w25q32_drv/w25q32_drv.c:131-261 | The three iffs above for the shipped driver: a write is one flat write iff pos % 256 + n <= 512, lands where asked iff also pos + n <= 4096 (or n is 0), and reads back iff pos % 4096 + n <= 4096 instead. |
| FlashAppend.NextCellExact | device_drivers/w25q32_drv/w25q32_drv.c:258 | With the shipped advance the next write starts in the cell after the previous one if and only if the previous one started at the first cell of the window. |
| FlashAppend.AppendExact | device_drivers/w25q32_drv/w25q32_drv.c:176-261 | For every position and both lengths: two writes leave the memory of one write of both parts, for all contents, if and only if the build is repaired or `MemoryCondition` holds of position and lengths (second part empty, or start of the window and within two pages, or an empty first part and no loss to the end of the chip); likewise, separately, for the final position and `PositionCondition`. |
| FlashAppend.ShippedMemoryExact | device_drivers/w25q32_drv/w25q32_drv.c:176-261 | The memory half for the shipped driver: iff the second part is empty, or pos is a multiple of 4096 and both parts fit in 512 bytes (first part empty: unless the chip's end cuts the second short in its last 4096 bytes). |
| FlashAppend.ShippedPositionExact | device_drivers/w25q32_drv/w25q32_drv.c:258 | The position half away from the chip's end: iff 2 * pos + m is a multiple of 4096 and the masked start and end of the one write add up to less than 4096. |
| FlashAppend.ShippedAppendFails | device_drivers/w25q32_drv/w25q32_drv.c:235-258 | Two one-byte writes at position 10 leave cell 11 erased and end at position 43, where one write clears it and ends at 22. |
| FlashRuns.RunDelivers | device_drivers/w25q32_drv/w25q32_drv.c:95-261 | After every run of seeks, reads and writes, with any transfers failing or lost, each cell is its first value ANDed with every byte delivered to it. |
| FlashRuns.RunReadsBack | device_drivers/w25q32_drv/w25q32_drv.c:131-174 | And a read after the run returns just that, byte by byte. |
| FlashRuns.ShippedPositions | device_drivers/w25q32_drv/w25q32_drv.c:95-258 | Where each shipped operation leaves the position, in plain arithmetic: a read at pos % 4096 plus the bytes returned, a write at pos % 4096 plus the masked end address, anything that fails where it was. |
| FlashRuns.ArmedExact | device_drivers/w25q32_drv/w25q32_drv.c:216-246 | WEL is set for the frame of pass k exactly when that pass's Write Enable got through, or it is the first and an earlier failed write left WEL set. |
| FlashRuns.LostExact | device_drivers/w25q32_drv/w25q32_drv.c:77-87 | A write that reports success has stored its bytes, for all contents, if and only if it sends none or each frame's bytes are stored by some pass whose write-enable got through. |
| FlashRuns.MadeUpExact | device_drivers/w25q32_drv/w25q32_drv.c:216-246 | That pass is the frame's own, inside the address window and, in a repaired build, anywhere; only the shipped loop beyond the window sends a frame's bytes twice. |
| FlashRuns.RunSealed | device_drivers/w25q32_drv/w25q32_drv.c:95-261 | Over every run of seeks, reads and writes, failing ones included: the position stays in [0, TOTAL-1], bits are only cleared, and neither cells beyond the window nor the last cell ever change. |
| FlashDriver.WireObeyed | device_drivers/w25q32_drv/w25q32_drv.c:154-246 | Whatever methods were called on the driver, every page program it ever sent directly followed its own write-enable and found BUSY clear, and WEL set unless that write-enable was lost; every read found BUSY clear. |
| FlashChip.CarriedOutExact | device_drivers/w25q32_drv/w25q32_drv.c:216-246 | In a log of transfers that keeps the handshake, the chip carries out a page program exactly when WEL is set, hence always when its own write-enable got through. |
| FlashDriver.NextReady | device_drivers/w25q32_drv/w25q32_drv.c:228-233 | Laying the next header over bytes already sent leaves every unsent byte of the buffer intact. |
| FlashDriver.SliceIsFrame | device_drivers/w25q32_drv/w25q32_drv.c:222 | The slice of the buffer that pass k of the loop hands to the bus is inside the buffer and is exactly frame k. |
| FlashDriver.LoopNext | device_drivers/w25q32_drv/w25q32_drv.c:228-237 | One pass takes tmp_index, tmp_addr, tmp_count and offset from their closed form before frame k to the one before frame k + 1. |
| FlashDriver.LoopEnd | device_drivers/w25q32_drv/w25q32_drv.c:251 | Whatever the number of passes, the last one leaves tmp_addr at the masked end of the write. |
| FlashDriver.FlashFile.Llseek | device_drivers/w25q32_drv/w25q32_drv.c:95-129 | Follows the seek rule; a rejected seek returns EINVAL and changes nothing. |
| FlashDriver.FlashFile.CheckBusy | device_drivers/w25q32_drv/w25q32_drv.c:60-75 | Polls exactly until the chip reports idle, repeating status transfers that fail, sends nothing else, and terminates. |
| FlashDriver.FlashFile.WriteInstruction | device_drivers/w25q32_drv/w25q32_drv.c:77-87 | Sends one instruction byte to an idle chip; when the transfer fails nothing reaches the chip and the caller is not told. |
| FlashDriver.FlashFile.ProgramFrame | device_drivers/w25q32_drv/w25q32_drv.c:216-226 | The busy-wait, write-enable, program triple keeps the handshake and leaves memory and WEL as the frame, and each failing transfer, require. |
| FlashDriver.FlashFile.ReadChip | device_drivers/w25q32_drv/w25q32_drv.c:154-161 | One read command for exactly the given address and count goes to an idle chip, and the bytes returned are the chip's answer to it. |
| FlashDriver.FlashFile.Read | device_drivers/w25q32_drv/w25q32_drv.c:131-174 | Returns the clamped bytes from the masked address, asked for in one command, and leaves the position at the masked old one plus the bytes returned; each failing kernel call gives its error and leaves position and chip contents alone. |
| FlashDriver.FlashFile.SendFrames | device_drivers/w25q32_drv/w25q32_drv.c:211-254 | The do-while loop over the mutated buffer sends the specified frames in order, all buffer accesses in bounds; a failing transfer leaves exactly the frames before it sent, and lost write-enables exactly their frames ignored. |
| FlashDriver.FlashFile.SendFrame | device_drivers/w25q32_drv/w25q32_drv.c:213-226 | One pass of the loop sends frame k and no other. |
| FlashDriver.FlashFile.NextChunk | device_drivers/w25q32_drv/w25q32_drv.c:228-237 | The tail of the roll-over branch leaves the buffer ready for the next frame. |
| FlashDriver.FlashFile.Write | device_drivers/w25q32_drv/w25q32_drv.c:176-261 | The whole call: result, frames on the wire, memory, WEL and position for success, ENOMEM, a failing copy, a transfer failing at any frame and write-enables lost in any passes; a failing call leaves the position. |
| FlashDriver.LoadBuffer | device_drivers/w25q32_drv/w25q32_drv.c:191-208 | The fresh buffer holds the first header followed by all the user's bytes. |
| FlashDriver.PutHeader | device_drivers/w25q32_drv/w25q32_drv.c:229-233 | Exactly four cells of the buffer change. |
| FlashDriver.WriteSeekRead | device_drivers/w25q32_drv/w25q32_drv.c:95-261 | The three file operations in turn, run on the imperative driver and chip, give back the bytes written. |
| PseudoSpec.Clamp | 11_pseduo_char_driver/pseduo_char_driver.c:173-175 | A transfer never passes the end of the buffer and is shortened only to reach it exactly. |
| PseudoSpec.Serve | 11_pseduo_char_driver/pseduo_char_driver.c:161-231 | One call: positions only grow and stay inside, faulting and no-space calls leave the position, reads leave the buffer. |
| PseudoSpec.ServeReadExact | 11_pseduo_char_driver/pseduo_char_driver.c:161-193 | A read byte by byte: the bytes from the position on, as many as fit, and the new position; a fault inside the transfer leaves the position. |
| PseudoSpec.ServeWriteExact | 11_pseduo_char_driver/pseduo_char_driver.c:194-231 | A write cell by cell: data, zeros from a fault on, nothing else changed; the reply and the position in each of the three outcomes. |
| PseudoSpec.ChunkedReads | 11_pseduo_char_driver/pseduo_char_driver.c:161-193 | Reads of any sizes in turn return the bytes and the position of one read of their sum. |
| PseudoSpec.ChunkedWrites | 11_pseduo_char_driver/pseduo_char_driver.c:194-231 | With the unlock repaired, writes of any sizes in turn leave the buffer and the position of one write of their concatenation. |
| PseudoSpec.ShippedWrites | 11_pseduo_char_driver/pseduo_char_driver.c:210-213 | The shipped code agrees with that up to the first chunk that finds nothing to write, and takes in nothing afterwards. |
| PseudoSpec.ShippedChunksExact | 11_pseduo_char_driver/pseduo_char_driver.c:194-231 | Shipped chunked writes reach the position, and then also the buffer, of one whole write if and only if no empty chunk comes before a non-empty one while there is room; the buffer alone iff the bytes not taken in were in place already. |
| PseudoDevice.Handle.Llseek | 11_pseduo_char_driver/pseduo_char_driver.c:125-160 | Follows the seek rule; a rejected seek changes nothing. |
| PseudoDevice.Handle.Read | 11_pseduo_char_driver/pseduo_char_driver.c:161-193 | Serves the call on the shared buffer and releases the mutex on every exit; a call that finds the mutex held changes nothing. |
| PseudoDevice.Handle.Write | 11_pseduo_char_driver/pseduo_char_driver.c:194-231 | The same for writes; the mutex stays held afterwards exactly on the shipped no-space exit. |
| PseudoDevice.CopyFromUser | 11_pseduo_char_driver/pseduo_char_driver.c:216 | The buffer from the position on holds the bytes before a fault and zeros after it; nothing else changes. |
| PseudoConcurrent.StepKeepsInv | 11_pseduo_char_driver/pseduo_char_driver.c:161-231 | Every step of every thread keeps the correspondence with the one-call-at-a-time device. |
| PseudoConcurrent.Serialisable | 11_pseduo_char_driver/pseduo_char_driver.c:161-231 | In every interleaving of byte-level steps by any number of handles, all answers, positions and (outside the mutex) the buffer are those of the same calls one at a time in lock-acquisition order. |
| PseudoConcurrent.MutualExclusion | 11_pseduo_char_driver/pseduo_char_driver.c:166-189 | At most one call is between taking and releasing the mutex. |
| PseudoConcurrent.PositionsStayInside | 11_pseduo_char_driver/pseduo_char_driver.c:125-231 | In every run all positions stay in [0, size], for any buffer size. |
| PseudoProgress.HolderFinishes | 11_pseduo_char_driver/pseduo_char_driver.c:161-231 | From every reachable state whoever holds the mutex can finish on its own; its call then has the answer and the effect of the serial device, and the mutex is free unless the shipped no-space exit was taken. |
| PseudoProgress.CallCompletes | 11_pseduo_char_driver/pseduo_char_driver.c:161-231 | A call made while the mutex is free can be completed at once, with the answer and the effect of the serial device. |
| PseudoProgress.SeekCompletes | 11_pseduo_char_driver/pseduo_char_driver.c:125-160 | A seek is answered at once, whoever holds the mutex, and moves its own handle alone. |
| PseudoProgress.WaiterMovesOn | 11_pseduo_char_driver/pseduo_char_driver.c:166-167 | A waiting call can take the mutex if it is free, and otherwise be ended by a signal that leaves everything else as it is, even when the mutex has been abandoned. |
| PseudoConcurrent.NoSpaceExact | 11_pseduo_char_driver/pseduo_char_driver.c:207-212 | The calls turned away for want of space are exactly the writes of no bytes or at the end of the buffer when their turn came. |
| PseudoConcurrent.AbandonedExact | 11_pseduo_char_driver/pseduo_char_driver.c:207-213 | The mutex is held by nobody who will release it if and only if, in the shipped code, some write was of no bytes or stood at the end of the buffer. |
| PseudoConcurrent.ProgressExact | 11_pseduo_char_driver/pseduo_char_driver.c:199-213 | With a call outstanding, some thread can move if and only if no write of the shipped code was of no bytes or at the end of the buffer. |
| PseudoConcurrent.NeverAgain | 11_pseduo_char_driver/pseduo_char_driver.c:207-213 | After such a write no continuation ever serves another call or changes the buffer. |
| PseudoConcurrent.DeadlockReached | 11_pseduo_char_driver/pseduo_char_driver.c:207-213 | From every start one empty write on any handle abandons the mutex, and the next call on any handle waits for ever. |
| PollTheorems.StepKeepsAttentive | 17_poll_example_prog/poll_example_prog.c:64-172 | Every step keeps it that a poller past its tests is registered and has overlooked no flag whose wake-up is not still to come. |
| PollTheorems.NoLostWakeup | 17_poll_example_prog/poll_example_prog.c:64-172 | In every reachable state with a flag set and a poller asleep and untriggered, some thread is between setting that flag and its wake_up, and any wake_up lets the poller go on. |
| PollProgress.ScanFinishes | 17_poll_example_prog/poll_example_prog.c:152-172 | From every reachable state a thread about to scan can go through etx_poll on its own: both flags end clear, what was set and asked for is reported once, and it leaves poll(), scans again or sleeps accordingly. |
| PollProgress.PollOnce | 17_poll_example_prog/poll_example_prog.c:152-172 | poll() called with nobody else running returns exactly what is set and asked for, and sleeps in the queue if nothing is. |
| PollProgress.WokenReports | 17_poll_example_prog/poll_example_prog.c:152-172 | A triggered sleeper scans again: POLLIN or POLLOUT that is set by then and asked for is returned and its flag cleared; otherwise it sleeps again. |
| PollProgress.SleeperTimesOut | 17_poll_example_prog/poll_example_prog.c:152-172 | A sleeper whose time is up scans once more and leaves poll(), whatever is set. |
| PollProgress.StoreReachesSleeper | 17_poll_example_prog/poll_example_prog.c:81-163 | From every reachable state a store by any idle thread makes a sleeper that asks for POLLIN wake, scan and return it. |
| PollProgress.ShowReachesSleeper | 17_poll_example_prog/poll_example_prog.c:64-169 | The same for reading the sysfs file and POLLOUT. |
| PollProgress.NoSpuriousResume | 17_poll_example_prog/poll_example_prog.c:73-93 | A sleeper resumes only after some wake_up that found it in the queue. |
| PollTheorems.RunCounts | 17_poll_example_prog/poll_example_prog.c:159-163 | In every run each poller's successful tests equal its reports made, swallowed or owed, and never exceed the stores. |
| PollTheorems.ReportBound | 17_poll_example_prog/poll_example_prog.c:81-163 | k pollers together report POLLIN at most k times per store, a single poller at most once per store. |
| PollTheorems.ReportBoundAttained | 17_poll_example_prog/poll_example_prog.c:81-163 | The bound is tight: for every number of pollers and stores some run from module load makes all those reports. |
| PollTheorems.EveryStoreCovered | 17_poll_example_prog/poll_example_prog.c:88-163 | At every point after a store, can_read has stayed set, or the poller that cleared it owes a POLLIN for it, or has returned it, or had not asked for POLLIN. |
| PollTheorems.AnnouncedExact | 17_poll_example_prog/poll_example_prog.c:159-163 | A store whose flag has been cleared has its POLLIN owed or returned if and only if the poller that cleared it asks for POLLIN. |
| PollTheorems.EveryStoreAnnounced | 17_poll_example_prog/poll_example_prog.c:88-163 | If every poll() asks for POLLIN, no store is dropped. |
| PollTheorems.StoreSwallowed | 17_poll_example_prog/poll_example_prog.c:159-163 | A run from module load in which a thread asking for POLLOUT alone clears can_read and sleeps, and the store is never announced. |
| PollTheorems.FlagHasStore | 17_poll_example_prog/poll_example_prog.c:88-90 | Whenever can_read is set, some store set it and nothing has cleared it since. |
| PollTheorems.VersionExact | 17_poll_example_prog/poll_example_prog.c:88-139 | The value is always that of the latest sysfs_store or etx_write; nothing else replaces it. |
| PollTheorems.WritesAreNew | 17_poll_example_prog/poll_example_prog.c:88-139 | Each of those writes makes a value newer than every earlier one, and every later value is at least as new. |
| PollTheorems.StoreHasCopy | 17_poll_example_prog/poll_example_prog.c:88-90 | A store that is about to set can_read has itself written the value it stands for. |
| PollTheorems.ReadsAreFresh | 17_poll_example_prog/poll_example_prog.c:81-163 | After a test that found can_read set, every read sees a value at least as new as the one some store copied in before setting the flag that was still set at that test. |
| PollTheorems.MaskHasTest | 17_poll_example_prog/poll_example_prog.c:159-163 | A POLLIN about to be returned stems from the poller's latest successful test of can_read. |
| PollTheorems.ReportsAreFresh | 17_poll_example_prog/poll_example_prog.c:119-163 | After poll() returns POLLIN, every read sees a value at least as new as that of a store whose flag the poller observed for this report. |
| PollDevice.EtxDevice.SysfsShow | 17_poll_example_prog/poll_example_prog.c:64-76 | Uninterrupted it extends the run by set-flag, wake; it triggers every registered poller and returns the current value. |
| PollDevice.EtxDevice.SysfsStore | 17_poll_example_prog/poll_example_prog.c:81-96 | Uninterrupted it extends the run by copy, set-flag, wake; it triggers every registered poller. |
| PollDevice.EtxDevice.WakeUp | 17_poll_example_prog/poll_example_prog.c:93 | Triggers exactly the registered pollers and changes nothing else. |
| PollDevice.EtxDevice.EtxRead | 17_poll_example_prog/poll_example_prog.c:119-131 | Returns the value of the latest write, newer than any before that write; whoever was returned POLLIN at any earlier point of the run finds one at least as new as that of a store observed for that report. |
| PollDevice.EtxDevice.EtxWrite | 17_poll_example_prog/poll_example_prog.c:136-147 | Puts a newer value without touching a flag, a poller or a storing thread. |
| PollDevice.EtxDevice.PollStep | 17_poll_example_prog/poll_example_prog.c:152-172 | What poll() does around etx_poll, on the device: start, return, sleep or scan again, and go back to etx_poll when woken or timed out. |
| PollDevice.EtxDevice.EtxPoll | 17_poll_example_prog/poll_example_prog.c:152-172 | Uninterrupted it reports exactly the flags that were set, clears both, and extends the run by the steps of one scan, registering first. |
| PollDevice.EtxDevice.TakeRead | 17_poll_example_prog/poll_example_prog.c:159-163 | The test-and-clear of can_read. |
| PollDevice.EtxDevice.TakeWrite | 17_poll_example_prog/poll_example_prog.c:165-169 | The test-and-clear of can_write. |
| HexText.DigitTable | device_drivers/at24c256_drv/at24c256_drv1.c:74-82 | The value of each of the sixteen digits in both cases, for both digit maps. |
| HexText.HexChars | device_drivers/at24c256_drv/at24c256_drv1.c:74-87 | Exactly those characters are accepted. |
| HexText.OrIsBitwise | device_drivers/at24c256_drv/at24c256_drv1.c:89 | The or of the loop sets exactly the bits either operand has. |
| HexText.OrDigit | device_drivers/at24c256_drv/at24c256_drv1.c:89 | Or-ing a shifted digit into the accumulator is positional addition, since no bits overlap. |
| HexText.ConvertCharToHexReg | device_drivers/at24c256_drv/at24c256_drv1.c:67-92 | The shift-and-or loop accepts exactly the all-hex strings and then yields their positional base-16 value; otherwise both results are -1. |
| HexText.PositionalBound | device_drivers/at24c256_drv/at24c256_drv1.c:89 | k digits stay below 16^k, so the callers' four and two digits cannot overflow an int. |
| HexText.CaseBlind | device_drivers/at24c256_drv/at24c256_drv1.c:74-89 | A text and its upper-cased form are accepted alike and parse to the same number, with both digit maps. |
| HexText.ShippedReads | device_drivers/at24c256_drv/at24c256_drv1.c:74-89 | The shipped parser reads every text as the repaired one reads it with each letter replaced by the digit ten below. |
| HexText.PrintParsed | device_drivers/at24c256_drv/at24c256_drv1.c:67-158 | Every text of hex digits parses (repaired) to the number that prints as it in lower case. |
| HexText.ParsePrinted | device_drivers/at24c256_drv/at24c256_drv1.c:67-158 | Parsing a printed number gives it back with the repaired digit map, and with the shipped map never more than it, and exactly it if and only if every hex digit is at most 9. |
| Eeprom.SelectEncoded | device_drivers/at24c256_drv/at24c256_drv1.c:267-268 | The two address bytes, high byte first, are the address modulo 32768, for every 16-bit reg_addr, and select that cell. |
| Eeprom.At24c256.constructor | device_drivers/at24c256_drv/at24c256_drv1.c:408 | reg_addr starts as whatever the allocation held. |
| Eeprom.At24c256.ByteRead | device_drivers/at24c256_drv/at24c256_drv1.c:263-290 | Reads the addressed cell, or -1 on a failed transfer. |
| Eeprom.At24c256.ByteWrite | device_drivers/at24c256_drv/at24c256_drv1.c:292-314 | Stores to the addressed cell and no other, or -1 and no change. |
| Eeprom.At24c256.StoreRegAddr | device_drivers/at24c256_drv/at24c256_drv1.c:116-151 | Sets the cursor to a parsed address below 32768; other texts leave it, with the error replies of the code. |
| Eeprom.At24c256.ShowRegAddr | device_drivers/at24c256_drv/at24c256_drv1.c:153-158 | Prints the whole cursor as 0x, four hex digits and a newline. |
| Eeprom.At24c256.ShowReadByte | device_drivers/at24c256_drv/at24c256_drv1.c:164-181 | Prints the byte at the cursor and advances; a failed transfer does not advance. |
| Eeprom.At24c256.StoreWriteByte | device_drivers/at24c256_drv/at24c256_drv1.c:186-224 | Stores the parsed byte and advances; failed transfers and bad digits do not advance, a missing prefix does. |
| Eeprom.At24c256.DummyReadWrite | device_drivers/at24c256_drv/at24c256_drv1.c:316-390 | What probing leaves in cell 0x11 under every combination of failing transfers; it is the old byte when all succeed. |
| EepromTheorems.CursorRefines | device_drivers/at24c256_drv/at24c256_drv1.c:116-224 | After every run the cursor is the last accepted address plus the advancing accesses since, around the ring. |
| EepromTheorems.EepromRefines | device_drivers/at24c256_drv/at24c256_drv1.c:116-314 | After every run, failed transfers and malformed texts included, each cell holds the last byte stored in it and the cursor is as above. |
| EepromTheorems.WritesFill | device_drivers/at24c256_drv/at24c256_drv1.c:186-224 | Up to 32768 writes in a row put their bytes in consecutive ring cells, none overwriting another. |
| EepromTheorems.RingWriteBack | device_drivers/at24c256_drv/at24c256_drv1.c:116-314 | Set the cursor, write n <= 32768 bytes, set it back, read n: the bytes appear in order, also across the wrap from 0x7FFF to 0. |
| EepromTheorems.LineShows | device_drivers/at24c256_drv/at24c256_drv1.c:157-180 | A printed line is 0x, lower-case hex digits and a newline, and parses (repaired) to the number printed. |
| EepromTheorems.ShowsOne | device_drivers/at24c256_drv/at24c256_drv1.c:157-180 | Only one text does that for a number. |
| EepromTheorems.StoreCaseBlind | device_drivers/at24c256_drv/at24c256_drv1.c:124-201 | The case of a text, prefix included, makes no difference to a store. |
| EepromTheorems.ShowsState | device_drivers/at24c256_drv/at24c256_drv1.c:153-181 | In every state show_reg_addr prints the cursor and changes nothing, and a successful read prints the byte under it. |
| EepromTheorems.ShownAfterRun | device_drivers/at24c256_drv/at24c256_drv1.c:116-224 | After every run in which an address was accepted, show_reg_addr prints that address plus the advancing accesses since, around the ring. |
| EepromTheorems.ShowThenStore | device_drivers/at24c256_drv/at24c256_drv1.c:116-158 | The text one state shows brings the cursor of any other state to the same address: always when repaired, shipped if and only if no digit is a letter. |
| EepromTheorems.AddressTextExact | device_drivers/at24c256_drv/at24c256_drv1.c:116-158 | Storing the text that shows an address leaves the cursor there: always when repaired, shipped if and only if no digit is a letter. |
| EepromTheorems.ByteTextExact | device_drivers/at24c256_drv/at24c256_drv1.c:180-204 | The same for writing back the text that shows a byte. |

## Left out

- FlashDriver.FlashFile.Write: the header's byte order and the pointer casts of `caddr` and `tmp_addr` (`w25q32_drv.c:199-203`, `:229-233`) are not modelled; a header is one abstract (opcode, address) value, because what the casts read is not determined by the program. Nor is the buffer that the error exits do not free.
- FlashDriver.LoadBuffer: the first header is the abstract one, for the same reason.
- FlashDriver.PutHeader: each later header is the abstract one, for the same reason.
- FlashDriver.FlashFile.Llseek: no claim about the POSIX meaning of SEEK_END; both drivers measure from the last byte and so does the model.
- FlashAppend.AppendExact: stated for windows of at least four pages and at most a quarter of the chip, as the shipped one is.
- One open flash file at a time: the driver takes no lock, and what two handles do to each other is not modelled.
- HexText.ConvertCharToHexReg: int overflow for more than seven digits; the two callers pass four and two.
- PollDevice.EtxDevice.SysfsStore: `etx_value` is a version number; its bytes, the unbounded `strcpy`, lengths and torn copies are not modelled.
- Exclusive wakeups and signals in poll, and events other than the two the driver sets; timeouts are modelled.
- Sizes and counts are unbounded integers; the pseudo device is modelled for every positive size, not only 512.
- EEPROM write-cycle timing, and the page operations the driver leaves as TODO.
- `device_drivers/ds1302_drv`: a bounded BCD conversion whose read and set orders disagree; little would hold as written.
- `02_linked_list_prog`, `03_wait_queue_prog`, `06_mutex_prog`, `07_spinlock_prog`: one fixed script over kernel lists, and finite special cases of the two concurrent models here.
- Timers, tasklets, workqueues, platform, GPIO, ioctl and generic I2C drivers, user-space demos, device trees, module init and exit, probe and remove ladders, the usage text: wrappers or configuration.
