# nanochrono: a verified model of the kernel's protocols

This project models the stateful parts of the freestanding nanochrono kernel (`nanochrono-baremetal`)
and two arithmetic cores of `nanochrono-core`, and proves what they are for. `dafny verify
dfyconfig.toml` checks all of it.

How it is laid out:

- **xHCI.** `XhciTrb`, `XhciProducerRing` (command and transfer rings against a controller that follows
  addresses and cycle bits), `XhciEventRing` (the ring the controller fills), `XhciPolling` (arm, drain,
  route, poll, as functions on a driver state), `XhciReports` (the report protocol over whole runs, with
  the controller fetching the transfer rings and storing into the shared buffers between any two of the
  driver's steps), `XhciReportRuns` (what callers get, and the uninterrupted poll), `XhciRingRestart` and
  `XhciReusedRing` (rings used a second time, alone and under the report protocol), `XhciWordAccess` (the
  rings one word at a time), and `XhciDriver` (the driver's methods on its arrays and fields).
- **PCI.** `PciTopology` (the configuration space as a graph and the walk over it), `PciScan` (the
  recursive scan with its 256-bit bitmap and its callback) and `PciRegisters` (a machine's functions, the
  registers they show, and the scan judged by the functions).
- **Framebuffer.** `Pixels` (cells, pitch, pixel formats), `Compositing` (back buffer, damage box, and
  the same calls with no back buffer), `DrawingExtent` (how far each operation reaches, in whole numbers),
  `Framebuffer` (the surface in place), `CursorModel` (the arrow, and save-under).
- **I2C and GPIO.** `I2cMaster` (one interleaved transfer against a nondeterministic controller),
  `GpioPads`, `GpioCalibration`, `I2cHidGate`.
- **Smaller machines.** `VgaConsole`, `StopwatchModel`, `TimerModel`, `PointerModel`, `KeyboardModel`
  with the tables of `ScanCodes`, `TweenModel`, `TextFormat`, `Calendar`, `TickConversion`; `Common`,
  `Words` and `FloorDivision` hold what they share.

Code that changes state is a class whose methods equate the new state with a function of the old one;
the properties are lemmas about those functions and about runs of them. Integers are unbounded, so every
place where the source wraps or cuts says so (`%`), and where a result depends on not wrapping the
condition is stated. Control words of a TRB are numbers: setting a bit known to be clear is an addition.

## Conditions, and where the code and its comments differ

The model follows the code in each case.

- A command or transfer ring is a FIFO from a zeroed ring, with at most `RING_LEN - 1` entries unconsumed.
  `configure_endpoint` (`crates/nanochrono-baremetal/src/xhci.rs:1211`) sets an endpoint at the base of the
  ring EP0 has used, while the driver goes on filling it. That works exactly when the blocks already placed
  are a multiple of thirty (`XhciRingRestart.RestartedConsumerIsFifoExactly`). A successful `enumerate`
  places ten, so the endpoint takes EP0's first block again (`XhciRingRestart.EnumeratedEndpointRereads`),
  and the promises about reports fail with it (`XhciReusedRing.ReusedRingKeepsReportsExactly`,
  `XhciReusedRing.EnumeratedDeviceRereads`). `XhciReports.NoReportLost` and what follows from it start from
  rings in step, zeroed ones among them; that is not the start `enumerate` leaves.
- Re-enumeration into the same index (`crates/nanochrono-baremetal/src/xhci.rs:1029`) starts the driver's
  side over as well, on a ring it does not clear. Then blocks are taken in order exactly when the number
  placed before leaves a remainder of at most one by thirty (`XhciRingRestart.RenewedRingTakesInOrderExactly`).
- A block is three words. Written with its cycle bit last, as the driver does, and read with it first, it
  is never seen torn (`XhciWordAccess.WordsRefineFifo`). `next_event` copies its slot whole and leaves the
  order to the compiler: with the cycle bit first it is right (`XhciWordAccess.ControlFirstIsRight`), with
  the data first exactly when nothing arrives in between or the stale data happens to agree
  (`XhciWordAccess.DataFirstIsRightExactly`).
- A report shorter than the caller's room is delivered whole, and what the buffer held when the controller
  took the block fills the rest: `poll_report` does not look at how much was written
  (`XhciReportRuns.ReportsArriveWhole`).
- A pixel read back from a 16-bit mode and written again is byte for byte what it was, although the
  colour in between is only the top bits (`Pixels.ReadBackIsExact`). A restored cursor is therefore exact
  with no back buffer too.
- `discard_damage` keeps the device in step straight after a full-screen `present`, and this is what is
  proved of it.
- A failed I2C transfer leaves what it had on its way: bytes in the receive FIFO, and read commands in the
  transmit FIFO whose bytes are still to come. Nothing empties either
  (`I2cMaster.StalledReadLeavesBytes`). A later success takes those bytes first, up to sixteen of them; with
  none on their way it returns the device's bytes exactly (`I2cMaster.Master.WriteRead`).
- A tie between two pads is not final (`GpioCalibration.TieCanResolve`).
- A strike counts any report on an audit read, whatever the pin said, so a right gate is dropped by
  continuous motion: after three audits, hence within 192 polls (`I2cHidGate.ContinuousMotionDropsGate`).
- `duration` holds a reading with nanoseconds exactly below a million hours; from there on its last digit
  is dropped (`TextFormat.DurationFitsExactly`).
- A tween's interpolation is exact at every step exactly when its ends are within 2147483 of each other;
  beyond that the 32-bit product wraps (`TweenModel.MixIsExactWithinReach`), and the value leaves its ends or
  never arrives, but for the one pair that spans the whole range (`TweenModel.BehavesExactlyWithinReach`).
  Its *value* arrives when 901 thousandths are covered, before it is settled (`TweenModel.ArrivesExactly`).
- Tick conversion is monotone up to an interval exactly when that interval's nanoseconds fit 64 bits; the
  first that does not reads less than the one before (`TickConversion.OrderHoldsExactlyWhileFits`). A
  countdown that has run for that long therefore rises there, and no countdown rises sooner
  (`TimerModel.ReadoutFallsExactly`).
- Bit 3 of a PS/2 packet does not by itself bring a receiver that lost a byte back in step
  (`PointerModel.LostByteCanHoldAButton`); `PointerModel.StreamLag` says exactly when it is.
- A scan code set 1 keyboard that releases key 0x70 sends 0xF0 and is taken for set 2 from there on
  (`KeyboardModel.Set1ReadsBackExactly`); a set 2 keyboard comes back as sent exactly
  when every press before its first release is of one of the two codes the sets share
  (`KeyboardModel.Set2ReadsBackExactly`, `ScanCodes.SharedCodes`).
- Held-key reports replay exactly when at most one key changed (`KeyboardModel.ReplayHoldsExactly`).

Assumptions shared by several models: `Protected` is a cell that returns its last value; the framebuffer
ends below 4 GiB (`pitch * height < 2^32`); device answers are parameters or nondeterministic; hardware
that ignores its own specification is outside the model.

## Model

| member | source | states |
|---|---|---|
| XhciProducerRing.RingRefinesFifo | crates/nanochrono-baremetal/src/xhci.rs:802-863 | Over every interleaving of issues and controller fetches from a zeroed ring, what was taken is a prefix of what was issued, and the controller's next fetch idles exactly when all was taken, and otherwise gets the next issued block, through the link if it is there. |
| XhciProducerRing.FetchReads | crates/nanochrono-baremetal/src/xhci.rs:802-863 | One fetch at any point of any lap: idle at the producer, the link behind a full lap, otherwise exactly the next issued block; never a stale one. |
| XhciProducerRing.IssueKeeps | crates/nanochrono-baremetal/src/xhci.rs:1275-1299 | Placing a block, with the wrap and cycle flip after the last slot, keeps every slot carrying its own lap's cycle bit. |
| XhciProducerRing.LinkCarries | crates/nanochrono-baremetal/src/xhci.rs:850-863 | The link entry reads as the current lap's exactly when another lap has begun. |
| XhciProducerRing.RunKeeps | crates/nanochrono-baremetal/src/xhci.rs:802-863 | The ring invariant holds in every reachable state. |
| XhciRingRestart.RestartedConsumerIsFifoExactly | crates/nanochrono-baremetal/src/xhci.rs:1185-1219 | A consumer set back to the base with cycle 1, under a producer that carries on, is a FIFO over every run exactly when the blocks placed before are a whole number of pairs of laps. |
| XhciRingRestart.RestartedConsumerRereads | crates/nanochrono-baremetal/src/xhci.rs:1185-1219 | On an even lap its first fetch takes the lap's first block again; on an odd one it sees nothing. |
| XhciRingRestart.RestartedConsumerMisses | crates/nanochrono-baremetal/src/xhci.rs:1185-1219 | In the middle of an odd lap it does not see the next block placed. |
| XhciRingRestart.EnumeratedEndpointRereads | crates/nanochrono-baremetal/src/xhci.rs:1017-1119 | After the ten blocks of a successful enumeration the endpoint is no FIFO: its first fetch takes the first of them. |
| XhciRingRestart.RenewedRingTakesInOrderExactly | crates/nanochrono-baremetal/src/xhci.rs:1029-1033 | With the producer started over too, on memory not cleared, new blocks are taken in order over every run exactly when those placed before leave a remainder of at most one by two laps. |
| XhciRingRestart.RenewedRingRereads | crates/nanochrono-baremetal/src/xhci.rs:1029-1033 | Otherwise the first old slot that reads as the new lap's is taken again once the blocks before it are. |
| XhciReusedRing.ReusedRingKeepsReportsExactly | crates/nanochrono-baremetal/src/xhci.rs:1202-1370 | A device polled on a reused ring keeps every promise about its reports, over every run, exactly when a whole number of pairs of laps had been placed. |
| XhciReusedRing.EnumeratedDeviceRereads | crates/nanochrono-baremetal/src/xhci.rs:1017-1119 | Just enumerated, the controller's first look at the endpoint's ring takes the first of EP0's ten blocks. |
| XhciWordAccess.WordsRefineFifo | crates/nanochrono-baremetal/src/xhci.rs:812-826 | Over every interleaving of single-word writes, link included, and single-word reads with the cycle bit first, what was taken is a prefix of what was issued, and the controller sees a block exactly when there is one. |
| XhciWordAccess.SeenIsStable | crates/nanochrono-baremetal/src/xhci.rs:818-825 | A slot seen with its cycle bit right keeps every word while the driver goes on writing. |
| XhciWordAccess.EmptyLooksEmpty | crates/nanochrono-baremetal/src/xhci.rs:818-825 | With everything taken, no half-written block shows a cycle bit; only a complete link may. |
| XhciWordAccess.ControlFirstIsRight | crates/nanochrono-baremetal/src/xhci.rs:876-893 | Read cycle bit first, an event is right whatever is posted before its data is read. |
| XhciWordAccess.DataFirstIsRightExactly | crates/nanochrono-baremetal/src/xhci.rs:876-893 | Read data first, it is right exactly when it was there already, is still not there, or the stale data agreed. |
| XhciWordAccess.DataFirstCanTear | crates/nanochrono-baremetal/src/xhci.rs:876-893 | A first event read that way as it arrives, with an empty parameter. |
| XhciTrb.MarkedReadsBack | crates/nanochrono-baremetal/src/xhci.rs:802-832 | The cycle bit added to a block can be read and removed again, and leaves its kind and its fields alone. |
| XhciEventRing.EventsReadOnceInOrder | crates/nanochrono-baremetal/src/xhci.rs:876-908 | Over every run with at most `RING_LEN` unread, the events returned are a prefix of those posted, None comes exactly when nothing is unread, and the dequeue pointer names the next unread slot across all laps. |
| XhciEventRing.NextEventReads | crates/nanochrono-baremetal/src/xhci.rs:876-908 | One call returns the oldest unread event and advances, or None and changes nothing. |
| XhciEventRing.EventReadsBack | crates/nanochrono-baremetal/src/xhci.rs:880-892 | An event composed of its fields reads back as them: kind, completion code, parameter and slot, beside the length, the endpoint and the cycle bit. |
| XhciPolling.TransferIsIssue | crates/nanochrono-baremetal/src/xhci.rs:1275-1299 | Queuing a transfer is one issue on that device's own ring and leaves every other ring alone. |
| XhciPolling.ArmAsksInbound | crates/nanochrono-baremetal/src/xhci.rs:1348-1370 | Arming an idle device asks for the length wanted, at most 64 bytes, into its own 256, with an event on completion, and rings its slot once: the target is odd and half of it is the endpoint. |
| XhciPolling.RouteAllPerDevice | crates/nanochrono-baremetal/src/xhci.rs:1372-1401 | After any batch of events a device's flags depend on the events for its own slot alone, whatever is mixed in. |
| XhciPolling.DrainReadsAll | crates/nanochrono-baremetal/src/xhci.rs:1372-1396 | A drain reads every unread event once, in order, and applies each to the device on its slot. |
| XhciReports.NoReportLost | crates/nanochrono-baremetal/src/xhci.rs:1317-1401 | In every state reachable from rings in step (zeroed ones, not those `enumerate` leaves), with the controller acting between any two of the driver's steps: one block in flight at most, on a ring where the controller finds it, and never both queued and ready; reports delivered are, in order, those completed, byte for byte; at most the latest waits, whole; every block reads into its own device's buffer as its poll asked; at rest each has had its doorbell. |
| XhciReportRuns.QuietPollDelivers | crates/nanochrono-baremetal/src/xhci.rs:1317-1346 | Left alone, a poll delivers a report exactly when one is waiting, with the length the caller's room allows. |
| XhciReportRuns.QuietPollRearms | crates/nanochrono-baremetal/src/xhci.rs:1317-1370 | It ends with one block in flight and nothing undelivered. |
| XhciReportRuns.QuietPollIsPollReport | crates/nanochrono-baremetal/src/xhci.rs:1317-1370 | The step-by-step poll, uninterrupted, is the one the driver's methods compute, with the same bytes for the caller. |
| XhciReportRuns.ReportsArriveWhole | crates/nanochrono-baremetal/src/xhci.rs:1317-1346 | From rings in step, a caller that always offers the same room gets every report whole, and past a short one what the buffer held when the block was taken. |
| XhciReports.FinishKeeps | crates/nanochrono-baremetal/src/xhci.rs:1372-1396 | A completion, good or bad, at any moment turns the block held into one unread event, and a report if it was good, and keeps the device's invariant. |
| XhciReports.CopyIsUndisturbed | crates/nanochrono-baremetal/src/xhci.rs:1317-1370 | From rings in step: while the driver copies a report, no store the controller may make, for either device, touches the buffer it copies. |
| XhciReports.LookKeeps | crates/nanochrono-baremetal/src/xhci.rs:1275-1299 | The controller fetching from a device's transfer ring takes exactly the block placed there for it. |
| XhciReports.WriteKeeps | crates/nanochrono-baremetal/src/xhci.rs:1348-1370 | A byte the controller stores at a block's address lands in that device's buffer, behind the bytes before it. |
| XhciReports.DeliverKeeps | crates/nanochrono-baremetal/src/xhci.rs:1324-1346 | A finished copy is the one report completed and not delivered. |
| XhciReports.IssueKeeps | crates/nanochrono-baremetal/src/xhci.rs:1348-1370 | Arming finds room in the ring and places a read into the device's own buffer. |
| XhciReports.FreshIsInitial | crates/nanochrono-baremetal/src/xhci.rs:154-160 | Two devices on slots of their own over zeroed memory are a start in step. |
| XhciDriver.Xhci.WrapCommandRing | crates/nanochrono-baremetal/src/xhci.rs:850-863 | In place: rewrites the link with the current cycle and starts the next lap, and only that. |
| XhciDriver.Xhci.PlaceCommand | crates/nanochrono-baremetal/src/xhci.rs:802-832 | In place: one issue on the command ring and one doorbell. |
| XhciDriver.Xhci.TakeEvent | crates/nanochrono-baremetal/src/xhci.rs:876-908 | In place: the reader moves exactly as the event-ring specification says. |
| XhciDriver.Xhci.QueueTransfer | crates/nanochrono-baremetal/src/xhci.rs:1275-1299 | In place: the device's ring, index and cycle move as one issue. |
| XhciDriver.Xhci.ArmDevice | crates/nanochrono-baremetal/src/xhci.rs:1348-1370 | In place: queues one read and rings its doorbell unless one is queued already. |
| XhciDriver.Xhci.FindDevice | crates/nanochrono-baremetal/src/xhci.rs:1399-1403 | Finds the first live device on a slot. |
| XhciDriver.Xhci.DrainEvents | crates/nanochrono-baremetal/src/xhci.rs:1372-1396 | In place: the bounded drain loop equals the drain that the theorems are about. |
| XhciDriver.Xhci.Poll | crates/nanochrono-baremetal/src/xhci.rs:1317-1346 | In place: drain, deliver, arm; the caller's array gets the device's bytes and nothing past them. |
| PciTopology.WalkIsExact | crates/nanochrono-baremetal/src/pci.rs:133-192 | On any configuration space, cyclic or not, the buses walked are exactly those reachable from bus 0, and each present function on them is met once. |
| PciTopology.VisitIsSound | crates/nanochrono-baremetal/src/pci.rs:143-192 | Only reachable buses are marked. |
| PciTopology.VisitIsComplete | crates/nanochrono-baremetal/src/pci.rs:143-192 | Every bridge on a bus walked leads to a bus walked. |
| PciTopology.VisitReportsOnce | crates/nanochrono-baremetal/src/pci.rs:143-192 | A walk begun at any set of marked buses reports each function on the newly marked ones once and no other. |
| PciScan.Scanner.TestAndMark | crates/nanochrono-baremetal/src/pci.rs:148-153 | The 256-bit bitmap gains exactly that bus, and the answer says whether it had it. |
| PciScan.Scanner.ScanBus | crates/nanochrono-baremetal/src/pci.rs:143-192 | The recursive in-place scan terminates and reports what the walk meets, cut at the callback's first refusal. |
| PciScan.Scan | crates/nanochrono-baremetal/src/pci.rs:133-140 | A scan from bus 0 with an empty bitmap. |
| PciScan.FullScanIsExact | crates/nanochrono-baremetal/src/pci.rs:133-192 | With a callback that never stops it, each reachable present function is reported once. |
| PciScan.OfferIsPrefix | crates/nanochrono-baremetal/src/pci.rs:143-192 | With any callback the report is a prefix of the whole walk, ending just after the first refusal. |
| PciScan.Find | crates/nanochrono-baremetal/src/pci.rs:198-210 | Returns the first device in walk order that is wanted. |
| PciScan.FindIsExact | crates/nanochrono-baremetal/src/pci.rs:198-210 | What is found is wanted, present and reachable; None means no reachable device is wanted. |
| PciRegisters.RegistersReadBack | crates/nanochrono-baremetal/src/pci.rs:154-257 | What a function shows in its registers reads back as what it is: identity, class, header type, window, secondary bus and whether the slot has eight functions. |
| PciRegisters.MultifunctionBitIsNoKind | crates/nanochrono-baremetal/src/pci.rs:215-257 | Two spaces that differ only in bit 7 of a header-type byte have the same function there. |
| PciRegisters.EdgeIsLink | crates/nanochrono-baremetal/src/pci.rs:176-188 | The walk follows a bridge exactly where a counted function of header type 1 names that bus in its own register, whether or not it is multifunction. |
| PciRegisters.ScanReportsTheMachine | crates/nanochrono-baremetal/src/pci.rs:133-192 | By what is in the machine: every counted function on a bus that bridges connect to bus 0 is reported once, with its own fields, and nothing else is. |
| Pixels.ReadBackIsExact | crates/nanochrono-baremetal/src/framebuffer.rs:175-236 | Reading a cell and writing the colour back leaves the same bytes at every depth. |
| Pixels.WriteReadsBack | crates/nanochrono-baremetal/src/framebuffer.rs:175-236 | What a stored colour reads back as at 16, 24 and 32 bits. |
| Pixels.EncodedBytes | crates/nanochrono-baremetal/src/framebuffer.rs:214-236 | The bytes a colour is stored as, from its four bytes: blue, green, red and the rest, or five, six and five bits of a 16-bit word, low byte first. |
| Pixels.CellsApart | crates/nanochrono-baremetal/src/framebuffer.rs:214-236 | Distinct pixels never share a byte, for any pitch at least the row's length. |
| Pixels.PutRectExact | crates/nanochrono-baremetal/src/framebuffer.rs:240-268 | A filled or copied rectangle changes exactly its own pixels, each to the right colour. |
| Pixels.SamePixelsSameMemory | crates/nanochrono-baremetal/src/framebuffer.rs:214-236 | Pixels and padding together determine every byte. |
| Compositing.BackBufferIsInvisible | crates/nanochrono-baremetal/src/framebuffer.rs:153-344 | After a clear and any run of set, fill, present and present_damage, presenting the damage leaves the device bytes equal to what the same calls would have drawn with no back buffer. |
| Compositing.StepAgrees | crates/nanochrono-baremetal/src/framebuffer.rs:84-344 | Every operation keeps each device pixel outside the damage box equal to its converted back-buffer pixel. |
| Compositing.DamageCovers | crates/nanochrono-baremetal/src/framebuffer.rs:84-92 | Whatever an operation draws on is inside the damage box afterwards. |
| Compositing.ClearEstablishes | crates/nanochrono-baremetal/src/framebuffer.rs:271-275 | A clear puts an arbitrary surface into the agreed state. |
| Compositing.DiscardAfterFullPresent | crates/nanochrono-baremetal/src/framebuffer.rs:350-355 | Discarding the damage is harmless straight after a full present. |
| DrawingExtent.FillReaches | crates/nanochrono-baremetal/src/framebuffer.rs:240-268 | For any 32-bit rectangle: a buffer pixel holds the colour exactly if x <= px < x + w and y <= py < y + h, the sums unwrapped, and otherwise what it held; the device is untouched. |
| DrawingExtent.DirectFillReaches | crates/nanochrono-baremetal/src/framebuffer.rs:259-268 | The same of the pixels of a bare device, in the bytes of its format. |
| DrawingExtent.SetReaches | crates/nanochrono-baremetal/src/framebuffer.rs:153-166 | One pixel set changes that pixel alone, on the buffer and on a bare device, and nothing when off the surface. |
| DrawingExtent.PresentReaches | crates/nanochrono-baremetal/src/framebuffer.rs:289-327 | A present gives the device pixels of its rectangle the encoded buffer colours and changes no other, nor the buffer, nor the damage. |
| DrawingExtent.PresentDamageReaches | crates/nanochrono-baremetal/src/framebuffer.rs:335-344 | Presenting the damage does so for exactly the damage box, and empties it. |
| DrawingExtent.DamageIsTight | crates/nanochrono-baremetal/src/framebuffer.rs:240-257 | After a fill the damage is the smallest box around the damage before and the pixels filled. |
| DrawingExtent.ClearReachesAll | crates/nanochrono-baremetal/src/framebuffer.rs:271-273 | A clear leaves the colour in every pixel and all of them in the damage box. |
| DrawingExtent.WordLies | crates/nanochrono-baremetal/src/framebuffer.rs:153-166 | Where a pixel's word lies in the buffer. |
| DrawingExtent.ByteLies | crates/nanochrono-baremetal/src/framebuffer.rs:214-236 | Where each byte of a pixel lies on the device. |
| Framebuffer.Surface.AttachBackBuffer | crates/nanochrono-baremetal/src/framebuffer.rs:123-133 | Compositing is on exactly when the mode fits the buffer. |
| Framebuffer.Surface.Mark | crates/nanochrono-baremetal/src/framebuffer.rs:84-92 | In place: widens the four damage bounds, saturating. |
| Framebuffer.Surface.Store | crates/nanochrono-baremetal/src/framebuffer.rs:214-236 | In place: the device bytes of one pixel, in its own format. |
| Framebuffer.Surface.SetPixel | crates/nanochrono-baremetal/src/framebuffer.rs:153-166 | In place: one step of the composited screen, or of the bare device. |
| Framebuffer.Surface.GetPixel | crates/nanochrono-baremetal/src/framebuffer.rs:175-206 | Zero off the surface, the buffer's word if there is one, else the device's colour. |
| Framebuffer.Surface.FillRect | crates/nanochrono-baremetal/src/framebuffer.rs:240-268 | In place: the clipped fill of the buffer or of the device, whose reach `DrawingExtent` states. |
| Framebuffer.Surface.PresentArea | crates/nanochrono-baremetal/src/framebuffer.rs:289-327 | In place: copies exactly the clipped rectangle to the device. |
| Framebuffer.Surface.PresentDamaged | crates/nanochrono-baremetal/src/framebuffer.rs:335-344 | In place: copies the damage and resets it. |
| CursorModel.EraseUndoesDraw | crates/nanochrono-baremetal/src/gui_x86_64.rs:2501-2539 | Drawing and erasing at any position, over any edge, restores every byte of the surface. |
| CursorModel.SurfaceIsWellFormed | crates/nanochrono-baremetal/src/framebuffer.rs:214-236 | Whatever a surface holds, every cell is one the round trip is exact for. |
| CursorModel.DrawSaves | crates/nanochrono-baremetal/src/gui_x86_64.rs:2501-2520 | Every colour saved is the one from before anything was drawn. |
| CursorModel.CellsDistinct | crates/nanochrono-baremetal/src/gui_x86_64.rs:2501-2539 | No two cells of the arrow land on one pixel, wrapped or not. |
| CursorModel.DrawPaints | crates/nanochrono-baremetal/src/gui_x86_64.rs:2501-2520 | The pixel a cell of the arrow falls on, at any position, shows the encoded background colour on the arrow's edge and the encoded title colour inside it. |
| CursorModel.DrawSpares | crates/nanochrono-baremetal/src/gui_x86_64.rs:2501-2520 | A pixel no cell of the arrow falls on is as it was. |
| CursorModel.Cursor.Draw | crates/nanochrono-baremetal/src/gui_x86_64.rs:2501-2520 | In place: the save-and-draw pass over the arrow, as `DrawPaints`, `DrawSpares` and `DrawSaves` describe it, remembering where. |
| CursorModel.Cursor.Erase | crates/nanochrono-baremetal/src/gui_x86_64.rs:2522-2539 | In place: puts the saved colours back where the cursor was drawn, not where it is. |
| CursorModel.DrawMoveErase | crates/nanochrono-baremetal/src/gui_x86_64.rs:2496-2539 | Draw, move, erase leaves the surface as it was. |
| I2cMaster.Master.WriteRead | crates/nanochrono-baremetal/src/i2c.rs:454-543 | A success queued the whole script and took one value per byte wanted: the device's bytes in order if nothing was on its way at the start, otherwise the bytes already on their way first, up to sixteen; a failure is an abort or a wait that ran out; never more than sixteen reads in flight. |
| I2cMaster.StalledReadLeavesBytes | crates/nanochrono-baremetal/src/i2c.rs:480-532 | With the controller stopped, a read of sixteen bytes or more fails and leaves sixteen bytes on their way. |
| I2cMaster.Port.Advance | crates/nanochrono-baremetal/src/i2c.rs:486-532 | Whatever the controller gets done between two looks, up to sixteen bytes on their way all stay, in order, and the first sixteen do in any case, unless it gives up. |
| I2cMaster.Port.CarryOut | crates/nanochrono-baremetal/src/i2c.rs:486-496 | One command carried out moves a byte into the receive FIFO, or drops one beyond the first sixteen. |
| I2cMaster.ScriptIsOneTransaction | crates/nanochrono-baremetal/src/i2c.rs:470-517 | The bytes out, then as many reads as wanted; STOP on the final command alone, RESTART exactly on a first read after a write. |
| I2cMaster.Master.Push | crates/nanochrono-baremetal/src/i2c.rs:549-565 | Queues the command once or not at all, never into a full FIFO. |
| I2cMaster.Master.Settle | crates/nanochrono-baremetal/src/i2c.rs:593-610 | A bounded wait that ends with something to do or a reason to give up, queues nothing and loses no byte on its way. |
| I2cMaster.Master.Aim | crates/nanochrono-baremetal/src/i2c.rs:428-443 | The cached target is always what the controller was last pointed at. |
| I2cMaster.HeldLater | crates/nanochrono-baremetal/src/i2c.rs:486-532 | So a call's bytes are where they were, in order, after the controller has moved on. |
| I2cMaster.HeldTook | crates/nanochrono-baremetal/src/i2c.rs:524-528 | Taking one byte moves exactly the oldest outstanding one to its place. |
| I2cMaster.ToldQueued | crates/nanochrono-baremetal/src/i2c.rs:492-517 | Queuing one more read extends the script by exactly its next command. |
| GpioPads.ResolveIsExact | crates/nanochrono-baremetal/src/gpio.rs:352-376 | A pin resolves exactly if it lies in a mapped group of a community that exists and is large enough, and then to that group's pad. |
| GpioPads.ResolveIsInjective | crates/nanochrono-baremetal/src/gpio.rs:352-376 | No two pins share a pad. |
| GpioPads.PackUnpacks | crates/nanochrono-baremetal/src/gpio.rs:245-258 | A pad unpacks to the community and offset that went in. |
| GpioPads.ShippedTablesAreSound | crates/nanochrono-baremetal/src/gpio.rs:143-213 | Both pad tables the driver carries have disjoint pins and consecutive pads. |
| GpioCalibration.SettledIsExact | crates/nanochrono-baremetal/src/gpio.rs:536-600 | An answer is given exactly after four samples of each kind with exactly one pad that followed every report, at the level it followed at. |
| GpioCalibration.FlagsSummariseHistory | crates/nanochrono-baremetal/src/gpio.rs:550-570 | Four flags a pad say everything about an unbounded history. |
| GpioCalibration.CountersCount | crates/nanochrono-baremetal/src/gpio.rs:550-570 | The two saturating counters count the samples of each kind. |
| GpioCalibration.AnswerIsStable | crates/nanochrono-baremetal/src/gpio.rs:579-600 | Once a pad is named, no longer history names another pad or the other level. |
| GpioCalibration.TieCanResolve | crates/nanochrono-baremetal/src/gpio.rs:576-600 | A tie of two pads becomes an answer when one of them slips. |
| GpioCalibration.Calibrator.TakeSample | crates/nanochrono-baremetal/src/gpio.rs:536-548 | The packed word holds each watched pad's level in its own bit. |
| GpioCalibration.Calibrator.Observed | crates/nanochrono-baremetal/src/gpio.rs:550-570 | In place: one labelled sample is folded into flags and counters. |
| GpioCalibration.Calibrator.CheckSettled | crates/nanochrono-baremetal/src/gpio.rs:579-600 | The scan over the pads gives the narrowed answer. |
| I2cHidGate.BlindIsAbsorbing | crates/nanochrono-baremetal/src/i2c_hid.rs:416-548 | A blind gate stays blind and never skips the bus for the pin's sake. |
| I2cHidGate.LearningEndsBySettling | crates/nanochrono-baremetal/src/i2c_hid.rs:495-520 | Learning ends at the first poll at which the samples settle, on the pad they settled on; while it lasts they have not. |
| I2cHidGate.LearningFindsTheLine | crates/nanochrono-baremetal/src/i2c_hid.rs:416-520 | If over a run one watched pad alone follows the reports, with four reports and four quiet answers, the gate closes by its end, on that pad and the level it follows at. |
| I2cHidGate.GateFallsOnThreeStrikes | crates/nanochrono-baremetal/src/i2c_hid.rs:521-547 | A closed gate falls exactly when three answered audits in a row held a report, and keeps its pad until then. |
| I2cHidGate.AnyWindowAudits | crates/nanochrono-baremetal/src/i2c_hid.rs:416-494 | Of any 64 consecutive counted polls one reads the bus whatever the pin says, across the 32-bit wrap. |
| I2cHidGate.ReportsDropGateAfter | crates/nanochrono-baremetal/src/i2c_hid.rs:521-547 | Under uninterrupted reports the gate falls exactly when the audits passed make three strikes. |
| I2cHidGate.ContinuousMotionDropsGate | crates/nanochrono-baremetal/src/i2c_hid.rs:521-547 | So 192 polls of continuous motion drop any gate, however right its pin. |
| I2cHidGate.PollMeans | crates/nanochrono-baremetal/src/i2c_hid.rs:416-478 | One poll: not made after sixteen failures or with no room for a report; the bus left alone exactly when a closed gate's pad is not at the asserted level and this is no sixty-fourth poll; otherwise a report exactly when its length is from three to what was asked, so never at zero; and what becomes of the failure count. |
| I2cHidGate.RightPinDelivers | crates/nanochrono-baremetal/src/i2c_hid.rs:434-478 | Over any run behind a right pin and a working bus every waiting report is read, and while the gate is closed an idle poll reads the bus only when it is an audit. |
| I2cHidGate.Driver.PollOnce | crates/nanochrono-baremetal/src/i2c_hid.rs:416-494 | In place: one poll's pins, bus answer, counters and gate, as `PollMeans` describes it. |
| I2cHidGate.Driver.JudgePoll | crates/nanochrono-baremetal/src/i2c_hid.rs:495-548 | In place: the gate after one answered poll. |
| VgaConsole.ScreenIsLastLines | crates/nanochrono-baremetal/src/vga.rs:40-106 | After any bytes the screen is the last 25 lines of a console that never scrolls, with the cursor inside it. |
| VgaConsole.PutIsWindow | crates/nanochrono-baremetal/src/vga.rs:58-85 | One byte moves the window and the endless console alike. |
| VgaConsole.TextIsShown | crates/nanochrono-baremetal/src/vga.rs:58-85 | Text without line ends that fits before the end of the screen stands from the cursor on, in the attribute 0x07. |
| VgaConsole.Console.PutByte | crates/nanochrono-baremetal/src/vga.rs:58-85 | In place: one byte, or nothing before activation. |
| VgaConsole.Console.Scroll | crates/nanochrono-baremetal/src/vga.rs:88-106 | In place: every row moves up one and the last is blank. |
| Calendar.CivilIsExact | crates/nanochrono-core/src/format.rs:119-154 | For every instant and offset the fields are the calendar's date for that day, valid, with the weekday in step, and recompose to the exact nanosecond; no other day has that date. |
| Calendar.FormulaFollowsCalendar | crates/nanochrono-core/src/format.rs:119-147 | The closed formula equals stepping a leap-year calendar one day at a time. |
| Calendar.YearOfEraExact | crates/nanochrono-core/src/format.rs:126-133 | The era formula finds each day's own year. |
| Calendar.LaterIsAfter | crates/nanochrono-core/src/format.rs:119-154 | A later day has a later date. |
| StopwatchModel.Stopwatch.Ticks | crates/nanochrono-baremetal/src/gui_x86_64.rs:442-450 | The reading is the summed length of the segments since the last reset, as a 64-bit counter shows it, across its wrap. |
| StopwatchModel.Stopwatch.Toggle | crates/nanochrono-baremetal/src/gui_x86_64.rs:452-461 | In place: the fields keep standing for the history with one more press. |
| StopwatchModel.Stopwatch.Lap | crates/nanochrono-baremetal/src/gui_x86_64.rs:472-481 | In place: the table stays the latest six lap readings in order. |
| StopwatchModel.Stopwatch.Reset | crates/nanochrono-baremetal/src/gui_x86_64.rs:463-469 | In place: back to nothing measured, no laps and an empty table. |
| StopwatchModel.ReadingIsMeasuredTime | crates/nanochrono-baremetal/src/gui_x86_64.rs:442-461 | On a non-decreasing counter the measured time grows no faster than time, and the reading is that time exactly while it is under 2^64 ticks. |
| StopwatchModel.MeasuredGrows | crates/nanochrono-baremetal/src/gui_x86_64.rs:452-461 | A start opens a segment, a stop closes it, and a stopped watch stands still. |
| TimerModel.RemainingNeverIncreases | crates/nanochrono-baremetal/src/gui_x86_64.rs:522-549 | Over any run of presses and looks between resets and adjustments, as long as the time it ran for in all fits 64 bits of ticks and of nanoseconds, the readout never goes up. |
| TimerModel.ReadoutFallsExactly | crates/nanochrono-baremetal/src/gui_x86_64.rs:513-536 | Over such a run it never goes up from any instant to a later one exactly when that time fits. |
| TimerModel.ElapsedIsRunningTime | crates/nanochrono-baremetal/src/gui_x86_64.rs:513-549 | Over any run of presses and looks, whether it runs, whether it has expired and for how long it ran are what the instants of those presses and looks alone come to; what has elapsed is that time as a 64-bit counter shows it. |
| TimerModel.ReadoutIsExact | crates/nanochrono-baremetal/src/gui_x86_64.rs:522-536 | Over such a run the readout is the target less the running time in whole nanoseconds, and zero once that is used up. |
| TimerModel.MinuteIsAMinute | crates/nanochrono-baremetal/src/gui_x86_64.rs:489-549 | A new timer, started and looked at later, has expired exactly when sixty seconds of ticks went by. |
| TimerModel.RewoundIsWhole | crates/nanochrono-baremetal/src/gui_x86_64.rs:551-569 | A reset stops it with the whole target left; an adjustment does that too, and moves the target by ten seconds within its two limits. |
| TimerModel.ExpiredRests | crates/nanochrono-baremetal/src/gui_x86_64.rs:522-549 | Once expired it stays zero and stopped under any looks and presses. |
| TimerModel.RunIsSound | crates/nanochrono-baremetal/src/gui_x86_64.rs:503-568 | In every reachable state, expired means stopped with the whole target spent, and the target is at least one step. |
| TimerModel.LookExpiresAtZero | crates/nanochrono-baremetal/src/gui_x86_64.rs:522-536 | It expires exactly when looked at running with nothing left. |
| TimerModel.Timer.RemainingNs | crates/nanochrono-baremetal/src/gui_x86_64.rs:522-536 | In place: the readout, stopping at zero. |
| TimerModel.Timer.Toggle | crates/nanochrono-baremetal/src/gui_x86_64.rs:538-549 | In place: starts if it was stopped and stops if it was running, and does neither once expired. |
| TimerModel.Timer.Adjust | crates/nanochrono-baremetal/src/gui_x86_64.rs:557-569 | In place: while stopped the target moves by exactly ten seconds, cut at the top of 64 bits and at ten seconds, and the time spent starts over; while running nothing changes. |
| PointerModel.StreamReadsBack | crates/nanochrono-baremetal/src/input.rs:700-760 | A stream of packets gives exactly the motions sent, in order. |
| PointerModel.StraysAreSkipped | crates/nanochrono-baremetal/src/input.rs:700-718 | Bytes that cannot start a packet leave no trace before one. |
| PointerModel.OverflowIsDropped | crates/nanochrono-baremetal/src/input.rs:720-759 | A whole packet gives a motion exactly when neither overflow bit is set, and the next byte starts another. |
| PointerModel.PacketReadsBack | crates/nanochrono-baremetal/src/input.rs:720-759 | Nine-bit movement, buttons and the four-bit wheel read back as themselves. |
| PointerModel.LagNeverGrows | crates/nanochrono-baremetal/src/input.rs:706-718 | Over one packet a receiver out of step never falls further behind; its new lag is where a trailing byte first looks like a start, and none when none does. |
| PointerModel.StreamLag | crates/nanochrono-baremetal/src/input.rs:706-718 | Over a whole stream it is back in step exactly when its lag, packet by packet, runs out. |
| PointerModel.BackInStep | crates/nanochrono-baremetal/src/input.rs:706-718 | Once back in step every later motion arrives. |
| PointerModel.LostByteCanHoldAButton | crates/nanochrono-baremetal/src/input.rs:706-718 | A stream that never comes back in step after one lost byte. |
| PointerModel.Receiver.Accumulate | crates/nanochrono-baremetal/src/input.rs:700-760 | In place: one byte into the packet, or the motion it completes. |
| KeyboardModel.SetIsObserved | crates/nanochrono-baremetal/src/input.rs:662-688 | Set 2 is assumed exactly once a break prefix was seen. |
| KeyboardModel.Set2ReadsBack | crates/nanochrono-baremetal/src/input.rs:662-680 | Once set 2 is known every press and release comes back as sent, translated. |
| KeyboardModel.Set2StartsMisread | crates/nanochrono-baremetal/src/input.rs:662-688 | Before its first release a set 2 keyboard is read as set 1; from that release on it comes back as sent, translated. |
| KeyboardModel.Set2ReadsBackExactly | crates/nanochrono-baremetal/src/input.rs:662-688 | All of it comes back as sent exactly when every press before the first release is of a code both sets share. |
| ScanCodes.SharedCodes | crates/nanochrono-baremetal/src/input.rs:90-100 | The codes both sets share are 0x31 and 0x6F. |
| ScanCodes.KeyboardsAgree | crates/nanochrono-baremetal/src/input.rs:90-165 | Each letter and digit key gets the same code from a set 2 keyboard and from a USB one. |
| KeyboardModel.Set1ReadsBackExactly | crates/nanochrono-baremetal/src/input.rs:662-688 | In set 1 it does exactly while the key whose release looks like a prefix is not released. |
| KeyboardModel.Decoder.Keystroke | crates/nanochrono-baremetal/src/input.rs:662-688 | In place: one byte, the two latches, and the table once set 2 is known. |
| KeyboardModel.ReplayHoldsExactly | crates/nanochrono-baremetal/src/input.rs:988-1006 | Applying the event gives the new report's keys exactly when at most one key changed. |
| KeyboardModel.ChangeIsTrue | crates/nanochrono-baremetal/src/input.rs:988-1006 | No event exactly when nothing changed; otherwise a real change, presses first. |
| KeyboardModel.EventIsTrue | crates/nanochrono-baremetal/src/input.rs:988-1006 | The event returned is none exactly when the same keys are held, a press exactly when some key is held that was not, and carries the scan code of a key that went that way. |
| KeyboardModel.RunReplays | crates/nanochrono-baremetal/src/input.rs:927-960 | Over a run of one-key changes the events rebuild what is held. |
| KeyboardModel.KeysChanged | crates/nanochrono-baremetal/src/input.rs:988-1006 | The two loops find the first press, or else the first release: an event exactly when the keys held differ, a press exactly when some key is newly held, with the scan code of a key that went that way. |
| KeyboardModel.Keyboard.PollKeyboard | crates/nanochrono-baremetal/src/input.rs:927-960 | In place: the previous report is always replaced, and the event, if any, carries the usage's scan code. |
| TextFormat.DurationFitsExactly | crates/nanochrono-baremetal/src/text.rs:131-151 | The 24-byte form equals `format_elapsed_nano` and parses back to the duration exactly below a million hours; above, exactly the last digit is missing. |
| TextFormat.ElapsedRoundTrips | crates/nanochrono-core/src/format.rs:159-167 | The allocating form parses back for every duration. |
| TextFormat.LabelsTellDurationsApart | crates/nanochrono-baremetal/src/text.rs:131-151 | Below a million hours two labels are equal only for equal durations. |
| TextFormat.MillisecondsAlwaysFit | crates/nanochrono-baremetal/src/text.rs:131-151 | Without the nanosecond fields nothing is cut. |
| TextFormat.PaddedReadsBack | crates/nanochrono-baremetal/src/text.rs:79-97 | A padded number is digits, reads back, and is as wide as asked exactly when it fits. |
| TextFormat.FixedPointReadsBack | crates/nanochrono-baremetal/src/text.rs:105-113 | The point goes where the scale says, and both sides read back to the scaled value. |
| TextFormat.Digits | crates/nanochrono-baremetal/src/text.rs:79-90 | Twenty digits of scratch always suffice, filled backwards. |
| TextFormat.Text.Push | crates/nanochrono-baremetal/src/text.rs:55-61 | In place: appends a byte or drops it. |
| TextFormat.Text.Pad | crates/nanochrono-baremetal/src/text.rs:79-97 | In place: appends the padded decimal, cut at the buffer's end. |
| TextFormat.Text.Fixed | crates/nanochrono-baremetal/src/text.rs:105-113 | In place: appends the fixed-point form, cut at the buffer's end. |
| TextFormat.Duration | crates/nanochrono-baremetal/src/text.rs:131-151 | The chain of calls leaves the elapsed form cut to 24 bytes, though it takes the duration apart differently. |
| TweenModel.MixIsExactWithinReach | crates/nanochrono-baremetal/src/draw.rs:339-341 | Interpolation is exact at every thousandth exactly when the ends are within 2147483. |
| TweenModel.BehavesExactlyWithinReach | crates/nanochrono-baremetal/src/draw.rs:339-341 | The mixed value stays between its ends at every thousandth and arrives exactly when they are within 2147483, or span the whole range. |
| TweenModel.EaseRises | crates/nanochrono-baremetal/src/draw.rs:326-330 | The curve is monotone, starts at nothing, and is full exactly from 901 thousandths on. |
| TweenModel.EaseIsCubic | crates/nanochrono-baremetal/src/draw.rs:326-330 | One less the cube of what is left, in thousandths, but for what the two integer divisions drop. |
| TweenModel.ValueIsBetween | crates/nanochrono-baremetal/src/draw.rs:408-410 | With the ends within reach the value lies between them, and is the target exactly from 901 thousandths on. |
| TweenModel.StepApproaches | crates/nanochrono-baremetal/src/draw.rs:399-410 | With the ends within reach a step never moves away from the target, nor past it. |
| TweenModel.RetargetIsContinuous | crates/nanochrono-baremetal/src/draw.rs:388-395 | A new target never makes the value jump, and the same target again changes nothing. |
| TweenModel.ArrivesExactly | crates/nanochrono-baremetal/src/draw.rs:399-415 | With the ends within reach: settled after exactly the ceiling of what is left over the rate; arrived after exactly the ceiling of what is left to 901. |
| TweenModel.RunStaysInRange | crates/nanochrono-baremetal/src/draw.rs:388-410 | Over any run of frames and targets in a range the value stays in it. |
| TweenModel.Tween.Retarget | crates/nanochrono-baremetal/src/draw.rs:388-395 | In place: starts again from the current value. |
| TweenModel.Tween.Step | crates/nanochrono-baremetal/src/draw.rs:399-405 | In place: one frame, and whether it was still moving. |
| TickConversion.ConversionIsMonotone | crates/nanochrono-baremetal/src/clock.rs:130-135 | A longer interval never reads shorter, while it fits. |
| TickConversion.CutIsHarmlessExactly | crates/nanochrono-baremetal/src/clock.rs:130-135 | The cut to 64 bits changes nothing exactly when the interval is under 2^64 nanoseconds, as it always is from a gigahertz up. |
| TickConversion.SplittingCostsOneNanosecond | crates/nanochrono-baremetal/src/clock.rs:130-135 | Splitting an interval loses one nanosecond at most. |
| TickConversion.RoundTripLosesTheRemainder | crates/nanochrono-baremetal/src/clock.rs:130-140 | There and back never exceeds the original, loses exactly the remainder's worth of ticks, and so at most the ceiling of hz over 10^9. |
| TickConversion.DeadlineIsNeverLate | crates/nanochrono-core/src/context.rs:231-233 | A duration turned into counter units and back is never longer. |
| TickConversion.CoarserUnitsAgree | crates/nanochrono-core/src/context.rs:193-217 | Micro- and milliseconds are the nanoseconds with the rest dropped. |
| TickConversion.OrderHoldsExactlyWhileFits | crates/nanochrono-baremetal/src/clock.rs:130-135 | Conversion is monotone up to an interval exactly when that interval fits; the first that does not reads less than the one before. |
| TickConversion.WallClockAdvances | crates/nanochrono-baremetal/src/clock.rs:484-490 | The wall clock starts at the origin's second, reads origin plus elapsed modulo a day, and advances by what elapsed, around midnight. |

## Left out

- xHCI bring-up, enumeration, contexts, scratchpads, `configure_endpoint` and firmware handoff: long register sequences around the rings.
- `wait_command_event`: a bounded wait on events; the event ring it reads is modelled.
- `Framebuffer::outline` and modes of other than two to four bytes a pixel: loops of `fill`, and modes `is_usable` rejects.
- Reading the legacy PCI ports and `Device::enable`: the configuration space is a function.
- `begin_calibration`, `is_input` and pad registers: which pads are watched is a parameter.
- HID descriptors and report decoding, and the hid, aml, redundancy, ntp and dispatch modules: not part of this model.
- XhciProducerRing.RingRefinesFifo: stated for a ring that starts all zero; for one used before, `XhciRingRestart` says exactly when it holds.
- XhciReports.NoReportLost: starts from rings in step, which excludes the ring `enumerate` leaves, where the promise fails as `XhciReusedRing` says.
- Compositing.BackBufferIsInvisible: starts at the first clear, because a fresh back buffer is black whatever the device shows.
- I2cMaster.Master.WriteRead: the outer loop carries a bound on its passes, because `settle` returns as soon as the transmit FIFO has room and a controller that never carries anything out keeps the loop turning for ever; reaching the bound is shown to need that many passes in which no byte arrived.
- I2cMaster.Master.Aim: disabling the controller to change its target is a step that can fail; whether it also empties the FIFOs is not modelled.
- TweenModel.ValueIsBetween: like `StepApproaches` and `ArrivesExactly`, asks for ends within reach, since `BehavesExactlyWithinReach` shows what the others do.
- TimerModel.RemainingNeverIncreases: asks that the running time fit 64 bits, since `ReadoutFallsExactly` shows the readout rising where it does not.
- Deadlines in microseconds: a wait may look any number of times before it gives up.
- The cursor's colours beyond edge and fill, and the interface drawn with them.
- `Protected` and its verdicts: the stopwatch's accumulator is a plain cell, and its integrity flag is absent.
- Which keys share a scan code: both tables are modelled as they are and nothing is claimed about their being one-to-one, which neither is.
- The order in which the two USB devices are asked, the interval between I2C polls, and the ring of recent 8042 bytes kept for display.
- `mix_colour`, `ease_in`, `bytes`, `frequency`, and the formatters around a civil time: compositions of what is modelled.
- Drift, bench statistics, `sin_cos` and `format_bytes`: floating point.
- Calibrating the counter and reading the RTC: waits on hardware.
- `acpi.rs`, `multiboot.rs`, `panic_screen.rs`, `progress.rs`, the host-side crates and the language bindings: not part of this model.
