# VIM3 firmware and driver models

A Dafny 4.11 model of the stateful code of the Khadas VIM3 (Amlogic A311D) UEFI
firmware and of its Linux companions, with proofs of what that code keeps.
`dafny verify dfyconfig.toml` checks all of it. Nothing was executed.

| file | what it models |
|---|---|
| `NorFlash.dfy`, `Fmp.dfy`, `FmpSafety.dfy` | the power-fail-safe firmware update over eMMC boot0 and boot1, SPI NOR and the MCU boot-mode byte |
| `Spifc.dfy` | the SPI flash controller and chip: 64-byte loads, held chip select, page programs, erases |
| `VariableHeader.dfy`, `Fvb.dfy` | the firmware volume with its RAM shadow, and the variable-store header |
| `DmaPool.dfy` | the xHCI DMA pool: bitmap first fit, block list, ring boundary, address translation, aligned pages |
| `CpuFreq.dfy` | cluster mux, PLL, voltage rail, lock retries and rollback |
| `MmcTransfer.dfy` | SD/eMMC transfers cut into chunks, pending and application commands |
| `Ticks.dfy` | tick conversion, elapsed ticks, waiting for a register bit |
| `PcieConfig.dfy` | the PCIe configuration window and the fabricated class code |
| `Edid.dfy` | the display mode chosen from a monitor's EDID |
| `AoI2c.dfy`, `Rtc.dfy` | I2C token lists and data windows, and the real-time clock on top |
| `Efi.dfy`, `Wrappers.dfy`, `Sequences.dfy`, `Arith.dfy` | status codes, optional values, facts about sequences and arithmetic |

## How hardware enters

Hardware is state behind the methods that stand for device steps, and any step
may fail. In `Fmp` every sector erase, page program, block write, CMD6 and MCU
write appends the whole persistent board to a ghost trace, finished or torn, so
a property of every trace entry is a property of a power cut at every step. A
program may leave any bit at 1 and still report success. A NOR wait that runs out
leaves its erase or program pending: the chip goes on with it, and a command that
meets the busy chip may be ignored and still be reported done, as the chip in
`Spifc` does. Reads of an idle chip are truthful. "BL2 validates" is any predicate
on the first 64 KiB that is true of no blank chunk and of no copy of a BL2 with
extra bits set. In `Spifc` the chip keeps a log of all program and erase commands
it was sent. In `CpuFreq` each lock attempt takes an arbitrary number of polls and
a ghost trace records every register write. In `AoI2c` and `Rtc` a transfer is cut
after an arbitrary number of bus events. Ghost counters of what went wrong (`faults`,
`timeouts`, `busyReads`) let contracts say what a failure means, and that nothing
fails without a cause.

## Where code and documentation differ

The model follows the code.

- `InstallFromEmmc` never answers VOLUME_CORRUPTED: the protocol header promises
  to refuse a boot0 without a FIP signature, but only the size of the image is
  checked, and the size is constant.
- The MCU library's header promises that a written register is read back; the code
  does not read it, and the model takes an acknowledged write as taken.
- `SetImage` succeeds even if the last hand-back of the card to the user area
  failed: the card is then left at boot1, exactly when that CMD6 did not act.
- The NOR rewrite is power-fail safe also when a command meets a chip still busy,
  except for an old BL2 of a single sector on a chip busy from the start:
  `NorIsOldOrNew` and `OneSectorMixes`.
- The cpufreq rollback restores the PLL's last rate, which its comment calls the
  rate that was running. From the dyn path it is not: `StruckA73`. The exact
  condition is `Hazard` together with three refusals and one lock.
- `UsbHcAllocateMem` keeps the block it added for a ring that does not fit it; the
  pool's invariant says which blocks are idle: exactly those, until something is
  allocated in them.
- `XhcGetElapsedTicks` counts one tick too few across a wrap.
- `XhcWaitOpRegBit` computes its timeout in 32 bits: it waits the time asked for if
  and only if that is at most 4294967 ms (`TimeoutKept`, `WaitKept`). And if
  the bit never comes it need not end either: for a counter below 1 MHz, and only
  for one, whose tick is no longer than the timeout (`WaitEnds`).
- `LibSetTime` can leave the clock halted: after a success if the release was lost,
  which it does not look at, and after a stop that reached the chip but reported an
  error, which it returns at once. Its contract has the exact condition.
- The PCIe driver remembers a target even if the enable bit never latched, and so
  does not try again: `DeadUntilChange`.
- A first write data phase is not held back for a card that is still busy: only the
  chunks after it are, and only it can be lost (`TransferData`).
- `FindDetailedTimingMode` lets a later descriptor with a 16:9 twin win over an
  earlier one without: `OrderKept` gives the exact condition.
- The addressing guess of `MesonTransferData` is wrong exactly for a byte-addressed
  card read or written from its first block on: `GuessRight`.

## Model

| member | source | states |
|---|---|---|
| `Fmp.Vim3Fmp.SetImage` | Platform/Khadas/Vim3/Drivers/Vim3FmpDxe/Vim3FmpDxe.c:1056-1245 | Every recorded state of a run, under any failures and cuts, is one that InUpdate admits; success exactly when the last attempt is success, and then boot0 and boot1 start with the image, the NOR is the image from byte 512 on when it was targeted and untouched otherwise, and the MCU was switched only on opt-in and only if it is trusted; each failure code says which copies are still whole; the last selection was of the user area, and the card is there exactly if that CMD6 acted, else at boot1 after a success; progress is strictly increasing and ends at 100; without a fault it succeeds, but for an image that does not fit the NOR or an MCU that is refused, and consumes the request; a NOR failure means that the first erase failed or that both attempts at some chunk did, and then the abort erase; no reported card error but the hand-back passes for success |
| `Fmp.Vim3Fmp.Perform` | Platform/Khadas/Vim3/Drivers/Vim3FmpDxe/Vim3FmpDxe.c:1127-1240 | With the devices found: eMMC copies before the NOR and the NOR before the MCU in every recorded state, and what each failure code leaves of the copies, the card and the progress |
| `Fmp.Vim3Fmp.UpdateRescue` | Platform/Khadas/Vim3/Drivers/Vim3FmpDxe/Vim3FmpDxe.c:1136-1185 | boot0 is written and proven before boot1 is touched; each failure releases the card and names its copy; fails only after a fault, and a reported card error always fails it |
| `Fmp.Vim3Fmp.UpdateBoot1` | Platform/Khadas/Vim3/Drivers/Vim3FmpDxe/Vim3FmpDxe.c:1160-1183 | From a proven boot0: success means boot1 starts with the image too; boot0 keeps it in every state; without an acting hand-back the card stays at boot0 or boot1 |
| `Fmp.Vim3Fmp.UpdatePrimary` | Platform/Khadas/Vim3/Drivers/Vim3FmpDxe/Vim3FmpDxe.c:1192-1228 | The NOR is rewritten only when both eMMC copies are new; every state stays within the update; failure codes say how far it got |
| `Fmp.Vim3Fmp.FlipToNor` | Platform/Khadas/Vim3/Drivers/Vim3FmpDxe/Vim3FmpDxe.c:1218-1227 | The MCU byte is the only thing that changes, from a board whose NOR is whole; a refusal keeps the request |
| `Fmp.Vim3Fmp.UpdateCopy` | Platform/Khadas/Vim3/Drivers/Vim3FmpDxe/Vim3FmpDxe.c:1144-1166 | Selecting and writing one boot partition changes nothing but the access bits and the leading image-sized stretch of that partition; success means it starts with the image |
| `Fmp.Vim3Fmp.ReleaseCard` | Platform/Khadas/Vim3/Drivers/Vim3FmpDxe/Vim3FmpDxe.c:1149-1172 | Handing the card back keeps every state within the update and is the last selection made; the card is at the user area if the CMD6 acted and where it was otherwise |
| `Fmp.Vim3Fmp.WriteAndVerifyNor` | Platform/Khadas/Vim3/Drivers/Vim3FmpDxe/Vim3FmpDxe.c:688-787 | Every state is within a rewrite of the old NOR, from an idle or a busy chip; success means the NOR is the old one with the whole image laid over it; failure means the rewrite never got past erasing the first chunk, or the last NOR call was the abort erase of its first sector; progress is bounded, increasing and ends at the upper bound; fails only after a fault |
| `Fmp.Vim3Fmp.RewriteNor` | Platform/Khadas/Vim3/Drivers/Vim3FmpDxe/Vim3FmpDxe.c:718-787 | The same with the size checked and the buffers at hand |
| `Fmp.ValidFits` | Platform/Khadas/Vim3/Drivers/Vim3FmpDxe/Vim3FmpDxe.c:706-715 | Of the images SetImage accepts only those of a single block do not fit the NOR |
| `Fmp.Vim3Fmp.WriteAllChunks` | Platform/Khadas/Vim3/Drivers/Vim3FmpDxe/Vim3FmpDxe.c:742-782 | After the first erase: all chunks laid in the right place, or the first sector erased again; whatever is left pending stays within the rewrite; on failure the last calls were two failed attempts at a chunk and the abort erase |
| `Fmp.Vim3Fmp.WriteLaterChunks` | Platform/Khadas/Vim3/Drivers/Vim3FmpDxe/Vim3FmpDxe.c:742-761 | After each chunk the sectors below the offset are new, those above old and the first chunk as its erase left it; rounding a chunk up to 4 KiB never reaches another chunk |
| `Fmp.Vim3Fmp.WriteFirstChunk` | Platform/Khadas/Vim3/Drivers/Vim3FmpDxe/Vim3FmpDxe.c:763-772 | The first chunk last: laid, and with it the whole image, or failed twice |
| `Fmp.Vim3Fmp.WriteChunk` | Platform/Khadas/Vim3/Drivers/Vim3FmpDxe/Vim3FmpDxe.c:745-751 | One pass lays its chunk and no other, or fails; either way the first chunk stays as its erase left it, also while the chip goes on with what timed out |
| `Fmp.Vim3Fmp.ReportChunk` | Platform/Khadas/Vim3/Drivers/Vim3FmpDxe/Vim3FmpDxe.c:753-760 | Progress calls stay strictly increasing, below the upper bound, and the last one is the percentage written, and it was reported |
| `Fmp.PercentIsShare` | Platform/Khadas/Vim3/Drivers/Vim3FmpDxe/Vim3FmpDxe.c:753-757 | The percentage is the share of the span that is written, rounded down |
| `Fmp.Vim3Fmp.Abort` | Platform/Khadas/Vim3/Drivers/Vim3FmpDxe/Vim3FmpDxe.c:774-782 | The abort erase leaves a state of the rewrite even when it fails itself or is ignored by a busy chip; its success from an idle chip means the first sector is blank |
| `Fmp.Vim3Fmp.NorUpdateChunk` | Platform/Khadas/Vim3/Drivers/Vim3FmpDxe/Vim3FmpDxe.c:627-666 | Entered with an idle chip and at most 64 KiB, as both callers enter it: at every step of the erase, program and retry the chunk has all bits of the old or all bits of the new contents set; a second attempt is made exactly if the first did not find its data, and success is that one of them did; so one fault never fails a chunk; success makes it exact even when programs leave bits at 1 and the retry met a busy chip |
| `Fmp.Vim3Fmp.UpdateOnce` | Platform/Khadas/Vim3/Drivers/Vim3FmpDxe/Vim3FmpDxe.c:635-662 | One attempt, from an idle chip or one busy with what an earlier attempt began: an erase, then if that worked a program, then if that worked a read; it succeeds exactly if the read found the data, and fails only after a fault; a failure leaves the chunk fit for another |
| `Fmp.RetryReady` | Platform/Khadas/Vim3/Drivers/Vim3FmpDxe/Vim3FmpDxe.c:635-662 | Why the retry is sound: if its erase reports success on a busy chip, the sector that was not erased already has every new bit set and a blank tail |
| `Fmp.Vim3Fmp.NorErase` | Silicon/Amlogic/MesonG12B/Drivers/MesonSpifcFvbDxe/MesonSpifcFvbDxe.c:1035-1072 | Sector by sector, cut anywhere: bits are only set, inside the range or under what was still pending; success means the range is blank, except its first sector when the chip was busy at the call and ignored that command |
| `Fmp.Vim3Fmp.NorProgram` | Silicon/Amlogic/MesonG12B/Drivers/MesonSpifcFvbDxe/MesonSpifcFvbDxe.c:1007-1030 | Page by page, cut anywhere: bits are only cleared towards the data, inside the range or under what was still pending; a busy chip may ignore the first page |
| `Fmp.Vim3Fmp.WriteAndVerify` | Platform/Khadas/Vim3/Drivers/Vim3FmpDxe/Vim3FmpDxe.c:475-533 | Only the selected partition changes, in its leading image-sized stretch; success means the read-back equalled the image; a reported error fails it, and without a fault it succeeds |
| `Fmp.Vim3Fmp.WriteBlocks` | Platform/Khadas/Vim3/Drivers/Vim3FmpDxe/Vim3FmpDxe.c:475-500 | The same at every single block write; success exactly when no block write reported an error |
| `Fmp.Vim3Fmp.SelectPartition` | Platform/Khadas/Vim3/Drivers/Vim3FmpDxe/Vim3FmpDxe.c:424-459 | Bits 7:3 of PARTITION_CONFIG never change at any step; the access field is the one asked for exactly if the card acted, as it did for every success |
| `Fmp.SwitchSelects` | Platform/Khadas/Vim3/Drivers/Vim3FmpDxe/Vim3FmpDxe.c:436-452 | The CMD6 argument built from a configuration byte writes that byte with only its access field replaced |
| `Fmp.Vim3Fmp.CompleteSpiNorInstall` | Platform/Khadas/Vim3/Drivers/Vim3FmpDxe/Vim3FmpDxe.c:593-620 | Only the boot mode changes; ACCESS_DENIED exactly from an MCU that is not trusted, and then nothing changes; the request is consumed only after the MCU took the change |
| `Fmp.Vim3Fmp.McuWriteBootMode` | Platform/Khadas/Vim3/Library/Vim3McuLib/Vim3McuLib.c:115-152 | A refused MCU gets no transfer at all, a trusted one the write; every answer of the library is one of SUCCESS, DEVICE_ERROR, TIMEOUT and ACCESS_DENIED |
| `Fmp.Vim3Fmp.McuInit` | Platform/Khadas/Vim3/Library/Vim3McuLib/Vim3McuLib.c:166-219 | The MCU is judged once, by its device number and a range check, and the judgement stands for every later call |
| `Fmp.JudgedIs` | Platform/Khadas/Vim3/Library/Vim3McuLib/Vim3McuLib.c:193-214 | Trusted are exactly the answers with device number 0003 and a power setting of at most 2 |
| `Fmp.Vim3Fmp.InstallFromEmmc` | Platform/Khadas/Vim3/Drivers/Vim3FmpDxe/Vim3FmpDxe.c:867-950 | Every state keeps both eMMC copies and is within a rewrite of the NOR with boot0; success means the NOR is boot0 from byte 512 on and the boot mode is SPI first; ACCESS_DENIED exactly when the NOR is whole and the MCU is refused, with the boot mode as it was; it never answers VOLUME_CORRUPTED; on success the card is at the user area exactly if the hand-back acted, else at boot0; without a fault it succeeds unless the MCU is refused |
| `Fmp.Vim3Fmp.ReadBoot0` | Platform/Khadas/Vim3/Drivers/Vim3FmpDxe/Vim3FmpDxe.c:897-918 | Reads boot0 whole and hands the card back also after a read error; fails only after a fault |
| `FmpSafety.NorIsOldOrNew` | Platform/Khadas/Vim3/Drivers/Vim3FmpDxe/Vim3FmpDxe.c:668-787 | At every step of a rewrite, also when the abort erase fails or commands meet a busy chip: if the first 64 KiB validate, the NOR is entirely the old image or entirely the new one, provided the chip was idle at the start, or an old BL2 that validates reaches past its first 4 KiB |
| `FmpSafety.OneSectorMixes` | Platform/Khadas/Vim3/Drivers/Vim3FmpDxe/Vim3FmpDxe.c:668-787 | That proviso is needed: begun on a busy chip over an old BL2 confined to the first sector, the first erase can be reported done and change nothing, and the erase of the next chunk then leaves an old BL2 that validates over a NOR that is neither old nor new |
| `FmpSafety.EveryCutBoots` | Platform/Khadas/Vim3/Drivers/Vim3FmpDxe/Vim3FmpDxe.c:1056-1245 | A cut at any step of an update of a NOR-booted board, or at any step from the NOR rewrite on for any board, leaves a board that boots a complete old or new image, under the same proviso |
| `FmpSafety.EveryInstallCutBoots` | Platform/Khadas/Vim3/Drivers/Vim3FmpDxe/Vim3FmpDxe.c:867-950 | At every step of an install the eMMC copies are intact and a NOR that validates is whole |
| `FmpSafety.SomeCopySurvives` | Platform/Khadas/Vim3/Drivers/Vim3FmpDxe/Vim3FmpDxe.c:1140-1228 | Starting with boot1 or the NOR complete, at every step one of boot0, boot1 and NOR is complete |
| `FmpSafety.TwoCutsLoseBothCopies` | Platform/Khadas/Vim3/Drivers/Vim3FmpDxe/Vim3FmpDxe.c:1140-1181 | That hypothesis is needed: two runs of the card steps an update makes (selections and single block writes, each state within its update), one cut in the first block of boot1 and one in the first block of boot0, lose both eMMC copies; the runs are built from the contracts of the steps, not recorded by SetImage |
| `FmpSafety.McuOnlyAfterAllCopies` | Platform/Khadas/Vim3/Drivers/Vim3FmpDxe/Vim3FmpDxe.c:1192-1228 | The boot mode differs only in states where boot0, boot1 and the NOR all hold the new image |
| `Spifc.Controller.TransferEx` | Silicon/Amlogic/MesonG12B/Drivers/MesonSpifcFvbDxe/MesonSpifcFvbDxe.c:289-393 | A load of 1 to 64 bytes; chip select stays held exactly after a successful load that asks for it and is released on every other exit, timeouts included; the bus window is re-enabled on every exit; the window is off while the transfer runs |
| `Spifc.Controller.SendProgram` | Silicon/Amlogic/MesonG12B/Drivers/MesonSpifcFvbDxe/MesonSpifcFvbDxe.c:535-592 | The loads of a page join up to one command of header and data; on a timeout the chip was sent a prefix of it |
| `Spifc.Controller.NorProgramPage` | Silicon/Amlogic/MesonG12B/Drivers/MesonSpifcFvbDxe/MesonSpifcFvbDxe.c:535-592 | At most one program command is sent and it is a prefix of header plus data, all of it on success; a length past the page end is refused; it fails only for its arguments, a transfer that timed out, a latch read back clear from a chip found busy, or 100000 status reads that all saw the chip busy; a program cut short is waited out |
| `Spifc.Controller.NorProgram` | Silicon/Amlogic/MesonG12B/Drivers/MesonSpifcFvbDxe/MesonSpifcFvbDxe.c:596-625 | Success sends exactly the page commands of the range and nothing else; a failure sends a prefix of them and has one of the four causes of a page; so from an idle chip, without a timed-out transfer or 100000 busy reads, it succeeds, and a reliable chip then holds old AND data in the range and no other cell changed |
| `Spifc.CommandCount` | Silicon/Amlogic/MesonG12B/Drivers/MesonSpifcFvbDxe/MesonSpifcFvbDxe.c:612-622 | One program command for every touched page |
| `Spifc.CommandCarries` | Silicon/Amlogic/MesonG12B/Drivers/MesonSpifcFvbDxe/MesonSpifcFvbDxe.c:612-622 | The k-th command carries exactly the bytes of the range that lie in the k-th page |
| `Spifc.NoCommandWraps` | Silicon/Amlogic/MesonG12B/Drivers/MesonSpifcFvbDxe/MesonSpifcFvbDxe.c:612-622 | No command runs past the end of its page |
| `Spifc.PayloadsAreData` | Silicon/Amlogic/MesonG12B/Drivers/MesonSpifcFvbDxe/MesonSpifcFvbDxe.c:612-622 | The payloads of the commands join up to the data |
| `Spifc.HeaderDecodes` | Silicon/Amlogic/MesonG12B/Drivers/MesonSpifcFvbDxe/MesonSpifcFvbDxe.c:557-560 | The chip decodes the 24-bit address the driver encodes |
| `Spifc.Controller.NorRead` | Silicon/Amlogic/MesonG12B/Drivers/MesonSpifcFvbDxe/MesonSpifcFvbDxe.c:484-522 | Reads of any length are cut into commands of 60 bytes and return the cells of an idle chip; it fails only for its arguments or a timed-out transfer |
| `Spifc.Controller.NorEraseSector` | Silicon/Amlogic/MesonG12B/Drivers/MesonSpifcFvbDxe/MesonSpifcFvbDxe.c:629-657 | Only the sector changes, bits only being set; success means it is blank and the chip idle; it fails only for its arguments, a transfer that timed out, a latch read back clear from a chip found busy, or 500000 busy reads |
| `Spifc.Controller.NorWriteEnable` | Silicon/Amlogic/MesonG12B/Drivers/MesonSpifcFvbDxe/MesonSpifcFvbDxe.c:452-480 | Success means the latch is set; it is read back, and read clear only from a chip that was busy |
| `Spifc.Controller.NorWaitReady` | Silicon/Amlogic/MesonG12B/Drivers/MesonSpifcFvbDxe/MesonSpifcFvbDxe.c:426-448 | Success means the chip is idle; failure means that a transfer timed out or that all the polls saw it busy |
| `Fvb.MesonSpifcFvb.FvbWrite` | Silicon/Amlogic/MesonG12B/Drivers/MesonSpifcFvbDxe/MesonSpifcFvbDxe.c:802-877 | Rejections change nothing; on success the bytes are in flash and shadow; on failure shadow and flash can differ only beyond the returned count within the attempted bytes; only the attempted cells change; a write that passes the checks fails only for a cause below it, a busy chip, or bytes that did not land, and on a reliable chip those only where shadow and flash already differed |
| `Fvb.MesonSpifcFvb.VerifyAndCopy` | Silicon/Amlogic/MesonG12B/Drivers/MesonSpifcFvbDxe/MesonSpifcFvbDxe.c:861-874 | The shadow takes exactly the pieces read back equal, and the count says how many: it succeeds exactly if all of them lie in the flash and no transfer timed out, and stops at the first 60-byte piece that does not |
| `Fvb.MesonSpifcFvb.FvbRead` | Silicon/Amlogic/MesonG12B/Drivers/MesonSpifcFvbDxe/MesonSpifcFvbDxe.c:755-797 | Answers from the shadow, never past the block |
| `Fvb.MesonSpifcFvb.FvbEraseBlocks` | Silicon/Amlogic/MesonG12B/Drivers/MesonSpifcFvbDxe/MesonSpifcFvbDxe.c:882-975 | A list with any bad entry changes nothing; success blanks every listed block in flash and shadow; after a failure at most one block is in doubt; only cells of the list change, and a good list on an idle chip fails only for a cause below it |
| `Fvb.MesonSpifcFvb.CheckList` | Silicon/Amlogic/MesonG12B/Drivers/MesonSpifcFvbDxe/MesonSpifcFvbDxe.c:905-929 | The checking pass accepts a list exactly when all of it is erasable |
| `Fvb.WritableIsStore` | Silicon/Amlogic/MesonG12B/Drivers/MesonSpifcFvbDxe/MesonSpifcFvbDxe.c:659-668 | The writable blocks are those of the variable store and the two fault-tolerant-write areas |
| `Fvb.MesonSpifcFvb.EraseBlock` | Silicon/Amlogic/MesonG12B/Drivers/MesonSpifcFvbDxe/MesonSpifcFvbDxe.c:937-970 | One block: erased, proven blank and blanked in the shadow, or in doubt; on an idle chip it fails only for a cause below it |
| `Fvb.MesonSpifcFvb.NorFlashProgram` | Silicon/Amlogic/MesonG12B/Drivers/MesonSpifcFvbDxe/MesonSpifcFvbDxe.c:1007-1030 | Raw programs never reach the runtime window and are refused at runtime, and fail otherwise only for a cause below them or a busy chip |
| `Fvb.MesonSpifcFvb.NorFlashErase` | Silicon/Amlogic/MesonG12B/Drivers/MesonSpifcFvbDxe/MesonSpifcFvbDxe.c:1035-1072 | Raw erases never reach the runtime window and are refused when misaligned, and fail otherwise only for a cause below them or a busy chip |
| `Fvb.MesonSpifcFvb.FormatVariableStore` | Silicon/Amlogic/MesonG12B/Drivers/MesonSpifcFvbDxe/MesonSpifcFvbDxe.c:1167-1251 | Success leaves a valid header and blank areas in flash and shadow; cells outside the three areas never change; it is never refused because the header it built does not validate, and on a reliable chip fails only for a cause below it |
| `Fvb.MesonSpifcFvb.Initialize` | Silicon/Amlogic/MesonG12B/Drivers/MesonSpifcFvbDxe/MesonSpifcFvbDxe.c:1301-1477 | A store whose header is found valid is published exactly as found: no cell changes, no program or erase is sent, and it fails only for a timed-out transfer; with an invalid header read-only flash is refused unchanged, and writable flash is formatted into a fresh header over blank areas with every other cell as found; success means a shadow equal to the window and nothing in doubt |
| `Fvb.MesonSpifcFvb.Run` | Silicon/Amlogic/MesonG12B/Drivers/MesonSpifcFvbDxe/MesonSpifcFvbDxe.c:802-1072 | Over any sequence of writes, erases and raw calls, whatever fails: protected flash never changes, shadow and flash differ only where some failed call was working, and are equal when none failed; only cells of the operations change |
| `Fvb.MesonSpifcFvb.StartAndRun` | Silicon/Amlogic/MesonG12B/Drivers/MesonSpifcFvbDxe/MesonSpifcFvbDxe.c:802-1477 | From power-up: a start that succeeds, with or without a format, and then any sequence of operations leave a shadow that differs from flash only where some failed operation was working, and nowhere when none failed; over a store found valid no cell but those of the operations changes, and a start that fails changes none |
| `VariableHeader.BuiltHeadersAreValid` | Silicon/Amlogic/MesonG12B/Drivers/MesonSpifcFvbDxe/MesonSpifcFvbDxe.c:1076-1163 | The header the formatter builds passes the validity test, checksum included, whatever follows it |
| `VariableHeader.ValidIsLikeBuilt` | Silicon/Amlogic/MesonG12B/Drivers/MesonSpifcFvbDxe/MesonSpifcFvbDxe.c:1076-1109 | The validity test holds exactly if the 36 header words sum to zero and every tested byte is the one the formatter writes |
| `VariableHeader.BuiltUntested` | Silicon/Amlogic/MesonG12B/Drivers/MesonSpifcFvbDxe/MesonSpifcFvbDxe.c:1111-1162 | What the formatter writes beyond the tested bytes: zero vector, attributes, a block map of 192 blocks of 4 KiB and its end, and erased padding |
| `DmaPool.MemBlock.FindUnits` | Silicon/Amlogic/MesonG12B/Drivers/Vim3XhciDxe/UsbHcMem.c:145-222 | The scan finds the lowest start whose run is free and, for rings, within one 64 KiB window; it fails only when there is none |
| `DmaPool.MemBlock.AllocFromBlock` | Silicon/Amlogic/MesonG12B/Drivers/Vim3XhciDxe/UsbHcMem.c:145-222 | The lowest fit is marked and no other bit; NULL leaves the bitmap as it was |
| `DmaPool.MemPool.AllocateMem` | Silicon/Amlogic/MesonG12B/Drivers/Vim3XhciDxe/UsbHcMem.c:481-545 | Meets the request in the first block that has a fit; else only when pages are granted, and then in the new block exactly when it is no ring or a ring within the room on one side of the boundary; conservation and the list are kept |
| `DmaPool.MemPool.FreeMem` | Silicon/Amlogic/MesonG12B/Drivers/Vim3XhciDxe/UsbHcMem.c:556-616 | Clears exactly the bits of the allocation and releases the block exactly when that leaves it empty and it is not the head |
| `DmaPool.MemPool.LinkBehindHead` | Silicon/Amlogic/MesonG12B/Drivers/Vim3XhciDxe/UsbHcMem.c:342-350 | A new block goes behind the head and the list stays acyclic |
| `DmaPool.MemPool.UnlinkMemBlock` | Silicon/Amlogic/MesonG12B/Drivers/Vim3XhciDxe/UsbHcMem.c:385-401 | Exactly one block leaves the list |
| `DmaPool.MemBlock.IsEmpty` | Silicon/Amlogic/MesonG12B/Drivers/Vim3XhciDxe/UsbHcMem.c:362-375 | True exactly when no unit is in use |
| `DmaPool.UnitsCover` | Silicon/Amlogic/MesonG12B/Drivers/Vim3XhciDxe/UsbHcMem.c:495-503 | A request takes the fewest 64-byte units that hold it |
| `DmaPool.PagesCover` | Silicon/Amlogic/MesonG12B/Drivers/Vim3XhciDxe/UsbHcMem.c:523-527 | A block has sixteen pages, or for more than 64 KiB one page more than the request fills |
| `DmaPool.AllocConserves` | Silicon/Amlogic/MesonG12B/Drivers/Vim3XhciDxe/UsbHcMem.c:145-222 | First fit keeps live allocations disjoint and the set bits exactly their union |
| `DmaPool.FreeConserves` | Silicon/Amlogic/MesonG12B/Drivers/Vim3XhciDxe/UsbHcMem.c:556-616 | So does clearing one |
| `DmaPool.RemoveConserves` | Silicon/Amlogic/MesonG12B/Drivers/Vim3XhciDxe/UsbHcMem.c:607-613 | So does releasing an empty block |
| `DmaPool.AllocFreeRestores` | Silicon/Amlogic/MesonG12B/Drivers/Vim3XhciDxe/UsbHcMem.c:481-616 | Allocating and freeing restores every bitmap |
| `DmaPool.GrowThenFree` | Silicon/Amlogic/MesonG12B/Drivers/Vim3XhciDxe/UsbHcMem.c:481-616 | Also when the pool had to grow: the new block goes again |
| `DmaPool.FreshFits` | Silicon/Amlogic/MesonG12B/Drivers/Vim3XhciDxe/UsbHcMem.c:515-538 | A fresh page-aligned block serves every plain request, and a ring exactly when it fits one side of the boundary |
| `DmaPool.SmallRingsFit` | Silicon/Amlogic/MesonG12B/Drivers/Vim3XhciDxe/UsbHcMem.c:515-538 | Rings up to 32 KiB always fit a fresh block, and no larger size always does |
| `DmaPool.MemPool.PciAddrForHost` | Silicon/Amlogic/MesonG12B/Drivers/Vim3XhciDxe/UsbHcMem.c:236-277 | The bus address of the first block that holds the stretch |
| `DmaPool.MemPool.HostAddrForPci` | Silicon/Amlogic/MesonG12B/Drivers/Vim3XhciDxe/UsbHcMem.c:291-332 | The host address of the first block that holds the stretch |
| `DmaPool.TranslatedIs` | Silicon/Amlogic/MesonG12B/Drivers/Vim3XhciDxe/UsbHcMem.c:250-255 | The length looked for is rounded up to whole units exactly if alignment is asked for |
| `DmaPool.TranslationRoundTrip` | Silicon/Amlogic/MesonG12B/Drivers/Vim3XhciDxe/UsbHcMem.c:236-332 | Host to bus to host is the identity |
| `DmaPool.AllocateAlignedPages` | Silicon/Amlogic/MesonG12B/Drivers/Vim3XhciDxe/UsbHcMem.c:638-747 | For every power-of-two alignment the kept pages are aligned, and freed head, kept and freed tail partition the pages obtained; a failed mapping frees all of them |
| `DmaPool.PowerTest` | Silicon/Amlogic/MesonG12B/Drivers/Vim3XhciDxe/UsbHcMem.c:656-662 | n AND n - 1, on 64 bits, is zero exactly for zero and the powers of two |
| `DmaPool.AlignedByMask` | Silicon/Amlogic/MesonG12B/Drivers/Vim3XhciDxe/UsbHcMem.c:672-691 | Adding the mask and clearing its bits rounds up to the next multiple |
| `DmaPool.RingMask` | Silicon/Amlogic/MesonG12B/Drivers/Vim3XhciDxe/UsbHcMem.c:165-182 | Two addresses agree under the ring mask exactly if they lie in one 64 KiB window |
| `CpuFreq.PllParams` | patches/linux/g12b-cpufreq/g12b-cpufreq.c:222-236 | Succeeds exactly for rates 24000 m / 2^od with od 1 or 2 and m in 128 to 250 |
| `CpuFreq.ParamsUnique` | patches/linux/g12b-cpufreq/g12b-cpufreq.c:217-236 | A rate has one such (m, od) |
| `CpuFreq.ProgrammedRate` | patches/linux/g12b-cpufreq/g12b-cpufreq.c:238-260 | The rate read back from the programmed fields is the rate asked for |
| `CpuFreq.RailRealises` | patches/linux/g12b-cpufreq/g12b-cpufreq.c:196-215 | High and low counts share the period and put the rail within half a count of the request, for a request beyond the range at its end |
| `CpuFreq.TablesInRange` | patches/linux/g12b-cpufreq/g12b-cpufreq.c:120-148 | No request of either table is beyond the range |
| `CpuFreq.HighCountMonotone` | patches/linux/g12b-cpufreq/g12b-cpufreq.c:196-215 | A higher request never gives a lower rail |
| `CpuFreq.TablesSound` | patches/linux/g12b-cpufreq/g12b-cpufreq.c:120-148 | Both tables rise in rate and voltage and every point but the dyn path is made exactly by the PLL |
| `CpuFreq.Cluster.SetVoltage` | patches/linux/g12b-cpufreq/g12b-cpufreq.c:196-215 | The counts written realise the request: they share the period and the rail is within half a count of it |
| `CpuFreq.Cluster.PllProgramOnce` | patches/linux/g12b-cpufreq/g12b-cpufreq.c:279-308 | Exactly five control writes, all with the mux parked: reset, off, fields, on, reset released; success exactly when the lock comes within 5000 polls |
| `CpuFreq.OneThingAtATime` | patches/linux/g12b-cpufreq/g12b-cpufreq.c:279-298 | Of these writes only one changes the fields, while the PLL is off and in reset, and reset is released last |
| `CpuFreq.Cluster.Reprogram` | patches/linux/g12b-cpufreq/g12b-cpufreq.c:336-340 | Success exactly when one of three tries locks |
| `CpuFreq.Cluster.RollBack` | patches/linux/g12b-cpufreq/g12b-cpufreq.c:342-361 | Ends on the PLL at its previous rate or parked with nothing recorded |
| `CpuFreq.Cluster.PllSet` | patches/linux/g12b-cpufreq/g12b-cpufreq.c:310-368 | The PLL is written only while the mux is parked and selected only when locked at the recorded rate; success means it runs at the rate asked for, by the fast path or by reprogramming alike |
| `CpuFreq.Cluster.SetFreq` | patches/linux/g12b-cpufreq/g12b-cpufreq.c:370-378 | Where a request leaves the clock in every case |
| `CpuFreq.Cluster.TargetIndex` | patches/linux/g12b-cpufreq/g12b-cpufreq.c:380-414 | From an agreeing state, the counts of the rail realise a request that carries the running rate at every step of the transition if and only if it is not the hazardous rollback |
| `CpuFreq.Cluster.Setup` | patches/linux/g12b-cpufreq/g12b-cpufreq.c:515-571 | Leaves an agreeing state for any rate in the table |
| `CpuFreq.Cluster.Run` | patches/linux/g12b-cpufreq/g12b-cpufreq.c:262-414 | Over any sequence of requests and lock outcomes the counts of the rail realise a request that carries the running rate at every step if and only if no request strikes |
| `CpuFreq.NoDynNoStrike` | patches/linux/g12b-cpufreq/g12b-cpufreq.c:172-178 | A cluster without a dyn path is never struck |
| `CpuFreq.RefusingBothIsHarmless` | patches/linux/g12b-cpufreq/g12b-cpufreq.c:342-361 | Nor is any cluster whose PLL never refuses a rate three times and then takes the old one |
| `CpuFreq.StruckA73` | patches/linux/g12b-cpufreq/g12b-cpufreq.c:310-414 | The A73 at 2208 MHz, then at 1000 by the dyn path, then refused 1200, is put back to 2208 at the volts of 1000 |
| `MmcTransfer.Host.TransferData` | Silicon/Amlogic/MesonG12B/Drivers/MesonSdMmcDxe/MesonSdMmcDxe.c:941-1054 | Consumes the pending command; the commands issued are the plan, or a prefix of it on failure; the bytes moved so far are where they belong and at most one more chunk of the span was touched; a write entered while the card is busy can lose its first chunk and no other, and no later data phase meets a busy card; it fails only for a missing command or buffer, a length or address the command cannot take, a command that failed, or a million reads that saw the card busy after a written chunk |
| `MmcTransfer.Host.TransferChunks` | Silicon/Amlogic/MesonG12B/Drivers/MesonSdMmcDxe/MesonSdMmcDxe.c:981-1050 | The loop ends, steps the argument without wrapping inside the card, waits out every chunk written before the next, and a length that is no multiple of a block is never reported moved |
| `MmcTransfer.Host.TransferChunk` | Silicon/Amlogic/MesonG12B/Drivers/MesonSdMmcDxe/MesonSdMmcDxe.c:981-1050 | One chunk with its stop and, for a write, its wait; its bytes are in place on success unless a write met a busy card, and that is counted |
| `MmcTransfer.Host.EndChunk` | Silicon/Amlogic/MesonG12B/Drivers/MesonSdMmcDxe/MesonSdMmcDxe.c:1002-1045 | After a written chunk the card is no longer busy; it fails only for a failed CMD12 or a million busy reads |
| `MmcTransfer.Host.Execute` | Silicon/Amlogic/MesonG12B/Drivers/MesonSdMmcDxe/MesonSdMmcDxe.c:635-786 | Refuses exactly the lengths and addresses the controller cannot take, before anything is issued |
| `MmcTransfer.SmallPowers` | Silicon/Amlogic/MesonG12B/Drivers/MesonSdMmcDxe/MesonSdMmcDxe.c:697-707 | An auxiliary transfer takes the powers of two up to 512 |
| `MmcTransfer.PlanCovers` | Silicon/Amlogic/MesonG12B/Drivers/MesonSdMmcDxe/MesonSdMmcDxe.c:981-1050 | The data commands cover the span once, in order, in 1 to 511 blocks each, by sector and by byte addressing, whenever the span lies in a card its arguments can address |
| `MmcTransfer.PlanPaced` | Silicon/Amlogic/MesonG12B/Drivers/MesonSdMmcDxe/MesonSdMmcDxe.c:1002-1045 | CMD12 (and for a write the wait) stands between two data commands and not after the last |
| `MmcTransfer.AllMoved` | Silicon/Amlogic/MesonG12B/Drivers/MesonSdMmcDxe/MesonSdMmcDxe.c:941-1054 | All chunks moved is one unlimited transfer, but for what a busy card lost of the first chunk |
| `MmcTransfer.GuessRight` | Silicon/Amlogic/MesonG12B/Drivers/MesonSdMmcDxe/MesonSdMmcDxe.c:977-980 | Untold, the driver takes the right addressing except exactly for a byte-addressed card from its first block on |
| `MmcTransfer.Host.SendCommand` | Silicon/Amlogic/MesonG12B/Drivers/MesonSdMmcDxe/MesonSdMmcDxe.c:868-909 | A data command is pending and nothing else is; CMD55 marks the next command only when it succeeded; only the identification command sets the addressing |
| `MmcTransfer.DataCommands` | Silicon/Amlogic/MesonG12B/Drivers/MesonSdMmcDxe/MesonSdMmcDxe.c:614-633 | Data follows the block reads and writes, command 51, and 8 on an eMMC or 6 on an SD card that is not an application command |
| `MmcTransfer.Host.ReadBlocks` | Silicon/Amlogic/MesonG12B/Drivers/MesonSdMmcDxe/MesonSdMmcDxe.c:868-1067 | Command and transfer together read exactly the blocks asked for, by either read command, and fail only for a cause of the transfer |
| `MmcTransfer.Host.WriteBlocks` | Silicon/Amlogic/MesonG12B/Drivers/MesonSdMmcDxe/MesonSdMmcDxe.c:868-1086 | Command and transfer together write exactly the blocks asked for, and the buffer is kept |
| `Ticks.ExactUnlessShifted` | Silicon/Amlogic/MesonG12B/Drivers/Vim3XhciDxe/Xhci.c:2324-2375 | Without a shift the conversion is floor(frequency * time / 10^9), modulo 2^64 |
| `Ticks.ConversionError` | Silicon/Amlogic/MesonG12B/Drivers/Vim3XhciDxe/Xhci.c:2324-2375 | With or without a shift of e bits: the conversion before it wraps is off by less than one tick plus (2^e - 1) / 10^9 of the time and of itself |
| `Ticks.ProductFits` | Silicon/Amlogic/MesonG12B/Drivers/Vim3XhciDxe/Xhci.c:2362-2372 | The product after the shift never exceeds 64 bits |
| `Ticks.WhenConvertible` | Silicon/Amlogic/MesonG12B/Drivers/Vim3XhciDxe/Xhci.c:2362-2372 | The divisor is zero exactly for a remainder of 2^29 or more and a time of 2^63 or more |
| `Ticks.XhcTimer.XhcConvertTimeToTicks` | Silicon/Amlogic/MesonG12B/Drivers/Vim3XhciDxe/Xhci.c:2324-2375 | The conversion, with the properties of the counter asked for once |
| `Ticks.XhcGetElapsedTicks` | Silicon/Amlogic/MesonG12B/Drivers/Vim3XhciDxe/Xhci.c:2388-2427 | The true distance, or one tick less exactly when the counter started again in between |
| `Ticks.DistanceIsFewest` | Silicon/Amlogic/MesonG12B/Drivers/Vim3XhciDxe/Xhci.c:2388-2427 | That distance is the fewest ticks from one reading to the other, up or down |
| `Ticks.MicrosecondTicks` | Silicon/Amlogic/MesonG12B/Drivers/Vim3XhciDxe/XhciReg.c:460-465 | A microsecond is at least one tick exactly for a counter of unknown frequency or of at least 1 MHz |
| `Ticks.XhcTimer.CountPass` | Silicon/Amlogic/MesonG12B/Drivers/Vim3XhciDxe/XhciReg.c:460-467 | The ticks the counter ran in a pass, one less at a restart, or a microsecond where that is nothing: at least one tick from 1 MHz on or at an unknown frequency |
| `Ticks.ElapsedIs` | Silicon/Amlogic/MesonG12B/Drivers/Vim3XhciDxe/XhciReg.c:456-467 | What n passes count: the steps the counter made, less one for each restart, and a microsecond for each pass of nothing, modulo 2^64 |
| `Ticks.RanIsPosition` | Silicon/Amlogic/MesonG12B/Drivers/Vim3XhciDxe/Xhci.c:2388-2427 | Those steps are the way from the first reading to the last and once round for every restart |
| `Ticks.SteadyElapsed` | Silicon/Amlogic/MesonG12B/Drivers/Vim3XhciDxe/XhciReg.c:456-467 | While the counter advances and does not start again the wait counts exactly how far it got |
| `Ticks.XhcTimer.XhcWaitOpRegBit` | Silicon/Amlogic/MesonG12B/Drivers/Vim3XhciDxe/XhciReg.c:434-471 | For every counter and every sequence of its readings: success with the first pass that sees the bit while time was left, Timeout exactly when the elapsed ticks reach the timeout, and still waiting after any number of passes otherwise; it has ended within one pass per tick when the counter is known to tick; for readings that advance in every pass a Timeout comes with the first pass at which the counter has run the timeout |
| `Ticks.TimeoutKept` | Silicon/Amlogic/MesonG12B/Drivers/Vim3XhciDxe/XhciReg.c:450-455 | The nanoseconds waited are the milliseconds asked for if and only if these are at most 4294967; 4294968 ms are waited as 0.704 ms |
| `Ticks.WaitKept` | Silicon/Amlogic/MesonG12B/Drivers/Vim3XhciDxe/XhciReg.c:450-469 | So up to 4294967 ms a wait that times out has counted the ticks asked for, and 4294968 ms may end after 16896 ticks at 24 MHz |
| `Ticks.SlowCounterHangs` | Silicon/Amlogic/MesonG12B/Drivers/Vim3XhciDxe/XhciReg.c:460-469 | Below 1 MHz the microsecond fallback is zero ticks: on a counter that stands still the elapsed ticks stay 0 for ever |
| `Ticks.WaitEnds` | Silicon/Amlogic/MesonG12B/Drivers/Vim3XhciDxe/XhciReg.c:450-469 | The time of a wait is up after some pass, whatever the readings, if and only if the frequency is unknown or at least 1 MHz or the timeout is less than one tick |
| `Ticks.SlowTimeout` | Silicon/Amlogic/MesonG12B/Drivers/Vim3XhciDxe/XhciReg.c:450-469 | Below 1 MHz the timeout is converted to zero ticks exactly if it is less than one |
| `Ticks.ShortPeriod` | Silicon/Amlogic/MesonG12B/Drivers/Vim3XhciDxe/XhciReg.c:456-467 | For a counter whose period leaves room in 64 bits the only readings left out of that, those that wrap the sum in one pass, do not exist |
| `PcieConfig.G12bPcie.MapBus` | patches/linux/g12b-pcie-acpi/g12b-pcie-acpi.c:131-162 | A window handed out reaches exactly the bus, device and function meant, with the right configuration type, or nothing if the region is not enabled; the region is written only when the target changes |
| `PcieConfig.G12bPcie.RetargetCfg` | patches/linux/g12b-pcie-acpi/g12b-pcie-acpi.c:105-129 | The region carries base, limit, target and type, and is enabled exactly if the bit latches within 100 polls |
| `PcieConfig.G12bPcie.Run` | patches/linux/g12b-pcie-acpi/g12b-pcie-acpi.c:105-162 | Each of any sequence of accesses reaches what it is for or nothing, never another function, and nothing exactly when the last aiming was never enabled; one retarget for each change of function |
| `PcieConfig.LatchedIsLive` | patches/linux/g12b-pcie-acpi/g12b-pcie-acpi.c:121-129 | If every enable bit latches within the polls, no access finds the region disabled |
| `PcieConfig.DeadUntilChange` | patches/linux/g12b-pcie-acpi/g12b-pcie-acpi.c:151-158 | If one does not, its function stays out of reach for as long as no other is accessed, because the target was remembered all the same |
| `PcieConfig.TargetDecodes` | patches/linux/g12b-pcie-acpi/g12b-pcie-acpi.c:151-152 | Bus and function are read back from the target |
| `PcieConfig.ReadConf` | patches/linux/g12b-pcie-acpi/g12b-pcie-acpi.c:164-190 | Class-code reads of 1, 2 and 4 bytes at every aligned offset are slices of one dword |
| `PcieConfig.SliceIsBytes` | patches/linux/g12b-pcie-acpi/g12b-pcie-acpi.c:164-190 | A slice is the bytes at its place in the dword |
| `PcieConfig.BridgeIsBytes` | patches/linux/g12b-pcie-acpi/g12b-pcie-acpi.c:176-187 | The fabricated dword has the revision of the hardware below interface 0, subclass 4 and class 6 |
| `Edid.EdidBlockValid` | Platform/Khadas/Vim3/Drivers/MesonDisplayDxe/MesonDisplayHw.c:795-818 | True exactly when the bytes sum to a multiple of 256 and a base block starts with the header |
| `Edid.FindModeByVic` | Platform/Khadas/Vim3/Drivers/MesonDisplayDxe/MesonDisplayHw.c:947-962 | The first supported mode with the code |
| `Edid.FirstModeIsFirst` | Platform/Khadas/Vim3/Drivers/MesonDisplayDxe/MesonDisplayHw.c:980-997 | What the first mode with a timing means |
| `Edid.TimingRoundTrip` | Platform/Khadas/Vim3/Drivers/MesonDisplayDxe/MesonDisplayHw.c:921-945 | A timing stated in the descriptor layout is read back from it |
| `Edid.TwinsRepeat` | Platform/Khadas/Vim3/Drivers/MesonDisplayDxe/MesonDisplayHw.c:334-435 | The 16:9 twins of the table are exactly the entries that repeat the timing of the one before, and no other two entries share a timing |
| `Edid.FindDetailedTimingMode` | Platform/Khadas/Vim3/Drivers/MesonDisplayDxe/MesonDisplayHw.c:964-1001 | The first 16:9 twin any descriptor asks for, else the first mode any does |
| `Edid.FirstSupportedIsFirst` | Platform/Khadas/Vim3/Drivers/MesonDisplayDxe/MesonDisplayHw.c:1049-1064 | The chosen code is the first supported one in document order |
| `Edid.ScanExtension` | Platform/Khadas/Vim3/Drivers/MesonDisplayDxe/MesonDisplayHw.c:1032-1072 | One extension contributes its first supported code and its HDMI block, up to the first data block that would cross the end |
| `Edid.BlocksRoundTrip` | Platform/Khadas/Vim3/Drivers/MesonDisplayDxe/MesonDisplayHw.c:1042-1048 | Data blocks written as the standard writes them are read back, wherever they stand in an extension |
| `Edid.SupportedAreClocked` | Platform/Khadas/Vim3/Drivers/MesonDisplayDxe/MesonDisplayHw.c:334-435 | Every supported mode has a pixel clock, so a blank descriptor asks for none of them |
| `Edid.MesonDisplayChooseMode` | Platform/Khadas/Vim3/Drivers/MesonDisplayDxe/MesonDisplayHw.c:1003-1084 | On every byte string: the first supported code over all CTA extensions, else the detailed timing, else 720p; HDMI exactly when some vendor block says so |
| `Edid.ChoiceMeans` | Platform/Khadas/Vim3/Drivers/MesonDisplayDxe/MesonDisplayHw.c:1003-1084 | The first code that an extension names and the table has decides, over every detailed timing; without one the detailed timing, and without that 720p |
| `Edid.OrderKept` | Platform/Khadas/Vim3/Drivers/MesonDisplayDxe/MesonDisplayHw.c:964-1001 | The choice follows the order of the descriptors if and only if no descriptor with a 16:9 twin comes after an earlier match without one |
| `Edid.LaterTwinWins` | Platform/Khadas/Vim3/Drivers/MesonDisplayDxe/MesonDisplayHw.c:964-1001 | The detailed timings of a monitor that lists 1080p60 first and 480p second choose 480p where their order asks for 1080p60, and 480p is the mode unless an extension names a supported code |
| `AoI2c.TokenSet` | Platform/Khadas/Vim3/Library/Vim3AoI2cLib/Vim3AoI2cLib.c:63-79 | A token goes into the next free slot of the two lists and no other slot changes |
| `AoI2c.PackWrite` | Platform/Khadas/Vim3/Library/Vim3AoI2cLib/Vim3AoI2cLib.c:283-306 | Tokens and data window of a write: the register index, then the payload |
| `AoI2c.PackRead` | Platform/Khadas/Vim3/Library/Vim3AoI2cLib/Vim3AoI2cLib.c:242-255 | Tokens of a read: every byte but the last acknowledged |
| `AoI2c.CommandedWrite` | Platform/Khadas/Vim3/Library/Vim3AoI2cLib/Vim3AoI2cLib.c:273-309 | For every legal length the registers decode to start, address, register, payload and stop |
| `AoI2c.CommandedPoint` | Platform/Khadas/Vim3/Library/Vim3AoI2cLib/Vim3AoI2cLib.c:229-237 | The register is pointed at without a stop |
| `AoI2c.CommandedRead` | Platform/Khadas/Vim3/Library/Vim3AoI2cLib/Vim3AoI2cLib.c:242-257 | For every legal length the registers decode to a repeated start, address, reads and stop |
| `AoI2c.Unpack` | Platform/Khadas/Vim3/Library/Vim3AoI2cLib/Vim3AoI2cLib.c:262-266 | The bytes of the data windows in order |
| `AoI2c.Bus.Write` | Platform/Khadas/Vim3/Library/Vim3AoI2cLib/Vim3AoI2cLib.c:273-309 | Stores the payload in that slave and no other, from the register on or, past the last, from where its pointer wraps to; cut short, the bytes that arrived |
| `AoI2c.Bus.Read` | Platform/Khadas/Vim3/Library/Vim3AoI2cLib/Vim3AoI2cLib.c:210-269 | Returns the registers from there on, the index wrapped likewise, and changes none, in any slave, also when it fails |
| `AoI2c.Bus.Run` | Platform/Khadas/Vim3/Library/Vim3AoI2cLib/Vim3AoI2cLib.c:113-163 | One token list against the slave addressed and no other, launched from any state of the START bit and leaving it clear |
| `AoI2c.Bus.SetStart` | Platform/Khadas/Vim3/Library/Vim3AoI2cLib/Vim3AoI2cLib.c:131-142 | Only a rising START launches a run |
| `AoI2c.Bus.I2cWait` | Platform/Khadas/Vim3/Library/Vim3AoI2cLib/Vim3AoI2cLib.c:82-105 | TIMEOUT exactly when the run outlasts 100000 polls, otherwise its error flag decides; START is taken back on every way out |
| `AoI2c.AfterCutWrite` | Platform/Khadas/Vim3/Library/Vim3AoI2cLib/Vim3AoI2cLib.c:273-309 | A cut write stores exactly the payload bytes that arrived |
| `AoI2c.StoredLoaded` | Platform/Khadas/Vim3/Library/Vim3AoI2cLib/Vim3AoI2cLib.c:210-309 | What is written to an auto-incrementing slave is read back |
| `Rtc.TimeToRegisters` | Platform/Khadas/Vim3/Library/Vim3RealTimeClockLib/Vim3RealTimeClockLib.c:137-163 | The seven registers of a time |
| `Rtc.BcdDigits` | Platform/Khadas/Vim3/Library/Vim3RealTimeClockLib/Vim3RealTimeClockLib.c:108-163 | A register byte is two decimal digits, tens above |
| `Rtc.RegistersRoundTrip` | Platform/Khadas/Vim3/Library/Vim3RealTimeClockLib/Vim3RealTimeClockLib.c:108-163 | Decoding the registers of any time from 2000 to 2199 gives the time back, with the voltage-low flag clear |
| `Rtc.RealTimeClock.LibSetTime` | Platform/Khadas/Vim3/Library/Vim3RealTimeClockLib/Vim3RealTimeClockLib.c:321-400 | Refusals touch neither chip nor anchor; success exactly when all transfers up to the time write went through, and then the time registers hold the time and the anchor is moved; for every outcome the counter is left halted exactly if it was and no stop arrived, or a stop arrived and either reported an error or its release was lost |
| `Rtc.RealTimeClock.SetChip` | Platform/Khadas/Vim3/Library/Vim3RealTimeClockLib/Vim3RealTimeClockLib.c:352-392 | Registers other than control and time never change, and the counter is left halted by the same rule |
| `Rtc.RealTimeClock.WriteHalted` | Platform/Khadas/Vim3/Library/Vim3RealTimeClockLib/Vim3RealTimeClockLib.c:373-382 | The time is written only while the counter is halted |
| `Rtc.RealTimeClock.AnchorFromRtc` | Platform/Khadas/Vim3/Library/Vim3RealTimeClockLib/Vim3RealTimeClockLib.c:187-251 | The anchor moves only for a readable chip without the voltage-low flag and with a valid date, and then to that date |
| `Rtc.RealTimeClock.LibGetTime` | Platform/Khadas/Vim3/Library/Vim3RealTimeClockLib/Vim3RealTimeClockLib.c:265-307 | Served from the anchor and the counter alone |
| `Rtc.ServedAdvances` | Platform/Khadas/Vim3/Library/Vim3RealTimeClockLib/Vim3RealTimeClockLib.c:265-307 | Time served never goes back and advances by the whole seconds passed, give or take the one in progress, also when the counter wrapped |
| `Rtc.RealTimeClock.SetThenAnchor` | Platform/Khadas/Vim3/Library/Vim3RealTimeClockLib/Vim3RealTimeClockLib.c:187-400 | Setting a time and starting again from the chip, at a later reading of the counter, anchors the time that was set |

## Left out

- Pin, clock and controller bring-up, the watchdog around NOR writes, delays, caches, barriers and debug output.
- The persistence of the last-attempt record and the UEFI variable calls behind the opt-in request, which is a flag here.
- Locating the eMMC and the protocols: each lookup may fail, nothing more. The block I/O and host stack below the updater answers any status but VOLUME_CORRUPTED and ACCESS_DENIED.
- The other MCU registers, the HII pages, and the FMP descriptor and package calls.
- The JEDEC identification and the hand-over to runtime in the FVB driver's entry point.
- UINTN wrap-around of lengths and addresses, except where a row says so: addresses and lengths are unbounded, as the source's own range checks allow.
- Pool memory is not zeroed, and a request of zero bytes, which the source asserts against, is required away; pages granted to the pool are assumed page-aligned and disjoint from its blocks on host and bus.
- UsbHcFreeMemPool and UsbHcFreeAlignedPages: they hand back what was handed out.
- The block list is linked through real next fields; the ghost sequence of blocks only mirrors it.
- CpuFreq.Cluster.SetVoltage: the early return for a cluster without a described rail, because such a cluster is never registered; the module's noop switch is not modelled either.
- CpuFreq.Cluster.Run: starts from a rate in the table, and lets the policy's rate move on success only, as the cpufreq core does; the core itself is not part of this model.
- CpuFreq.Cluster.TargetIndex: speaks of a request that the counts of the rail realise, which is to say within half a PWM count of it.
- MmcTransfer.Host.TransferData: data of CMD6, CMD8 and CMD51 is arbitrary, and the card is assumed to refuse a span beyond its end; a card that is busy is assumed not to touch anything outside the span written.
- PcieConfig.G12bPcie.RetargetCfg: an enable bit that latches only after the polls were given up counts as one that never does.
- Fmp.Vim3Fmp.SetImage: what a failed NOR rewrite leaves running is assumed to have stopped changing the flash by the next call, though the chip may still read busy then; `Settled` says so.
- Edid.FindModeByVic: modes carry their timing and code; the encoder and clock profiles that go with a code are not modelled.
- AoI2c.TokenSet: registers are numbers and OR into empty bits is addition; slots are filled in order, as both callers do.
- Rtc.TimeToRegisters: years outside 2000 to 2199, for which the BCD helper asserts; the helper, IsTimeValid and the epoch conversions belong to a library that is not part of this model and enter as parameters.
- Rtc.RealTimeClock.LibSetTime: the chip's counter does not tick between the steps.
- xHCI rings and transfers, display and audio register tables, ACPI tables and capsule packing.
