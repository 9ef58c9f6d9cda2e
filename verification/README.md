# Verification of five BSP components

This project models five components of an x86 VxWorks board support package and proves what
they keep. Each method follows the branches and constants of the routine it names and is tied
to a specification function; the theorems are about those functions, for every input and every
run.

| module | component |
|---|---|
| `UartProtocol` | the NS16550 channel as a transition system: the ISR, the deferred-job worker, the callers of the driver and the chip take atomic steps over one state |
| `UartSafety` | invariants of every run of that system: pending jobs, conservation of bytes, no lost wake-up |
| `UartQuiet` | when the channel is quiet: poll mode, no CTS, no CREAD |
| `UartDelivery` | progress: the channel comes to rest, and at rest everything is delivered |
| `UartChannel` | the driver routines over one channel record with its spinlock; other threads and the chip run whenever the lock is free, and every execution is a run of the transition system |
| `Values` | shared value types |
| `BaudRate` | the two baud rate setters |
| `BootGeometry`, `BootLayout`, `BootLoader`, `BootEndToEnd` | the stage 1 boot loader: sector numbers and BIOS registers, layout and directory scan, the loader in place over 16-bit words, and the end-to-end theorem |
| `BootSector` | the FAT12/FAT16 boot-sector check in 32-bit arithmetic and the patch of the sector |
| `MmuTable`, `MmuCoverage`, `MmuE820` | the physical memory table, what any sequence of added mappings keeps, and the loop over the BIOS memory map |
| `PciRouting`, `PciConfig`, `PciRouter` | MP-table lookup and bridge climb, the programmed configuration space, and the linked list of bridges with the routines that walk it |

How the UART modules fit together: a run is a sequence of `Event`s, `Step` is the effect of one.
A section the driver executes under the channel lock is one event. A `Policy` says what the
other threads and the line refrain from: `Anything` restricts nothing; under `Clear`, CTS is on
wherever the driver looks at it, or CLOCAL keeps it from looking; `Steady` moreover keeps CREAD
and interrupt mode and sets them again only with the Rx bit set in the shadow; `Careful` moreover
sets no options; `Polled` does not set interrupt mode. `UartChannel`
runs the driver's own statements; `InterfereFrom` lets everybody else take the steps that the
policy of the channel allows, and can be called only with the lock free, as can `getTxChar`,
`putRcvChar` and `isrDeferJobAdd`. The interrupt routine and the jobs promise that their final
state is reachable from their first by such a run (`Reaches`), and that they keep the invariants
of the policy (`Kept`): for `Clear` these imply the pending wake-up, for `Steady` also the
receive discipline, for `Careful` also that no byte is lost in a FIFO.

## Results that are not a plain "yes"

- **Setting interrupt mode or options again can double the read job.** `ns16550vxbModeSet` under
  CLOCAL sets the Rx bit in the chip (vxbNs16550Sio.c:2525-2529), `ns16550vxbOptsSet` with CREAD in
  shadow and chip (vxbNs16550Sio.c:2195-2203), whether or not a read job is outstanding. The call
  is safe, in the sense that two read jobs are never outstanding in any steady run afterwards, if
  and only if the Rx bit is set in the shadow when it is made, or CLOCAL is off in the one case and
  the options leave CREAD out in the other
  (`ModeSetKeepsReadDiscipline`, `OptsSetKeepsReadDiscipline`); `SettingCanDoubleReadJob` is a run
  with two queued, for either call.
- **Poll mode need not stay without interrupts.** They are off right after the call, but a job
  that was deferred before enables its interrupt again when it ends. They stay off if and only if
  nothing was deferred (`PollSilencesExactly`).
- **CREAD off need not mean no reading.** A read job outstanding enables reception again when it
  ends (`OptsSetDeafensExactly`), and so does setting interrupt mode under CLOCAL
  (`ModeSetHears`); otherwise nothing is read (`DeafReadsNothing`).
- **The boot-sector check accepts some illegal sectors.** The string search at vxsysnt.c:713
  also finds its terminator, so a cluster size of zero passes (`ZeroClusterSizeAccepted`); a
  32-bit FAT size can make the sum of the parts wrap to a small number (`WrappingFatAccepted`).
  Excluding these two families, acceptance is legality (`AcceptsExactlyLegal`).
- **The memory table's documentation promises an ERROR on any conflicting page**
  (sysLib.c:2471-2473). The scan only sees entries that contain the request or lie over one end
  of it by two pages or more, and it stops at the first. `ConflictAcceptedExactly` says which
  conflicts are accepted; there is an example of each kind: an enclosed entry
  (`EnclosingConflictIsAccepted`), a one-page overlap (`OnePageConflictIsAccepted`), a conflict
  behind a suiting entry (`LaterConflictIsAccepted`). Each leaves a page mapped twice
  (`AcceptedConflictOverlaps`). With no active entry at all the routine returns OK and maps
  nothing (`EmptyTableMapsNothing`).
- **Requested memory is not always mapped as a whole.** Length is rounded independently of the
  address (`PagesHoldBytesExactly`), and the 64-bit length of a BIOS range is cut to 32 bits for
  the call (sysLib.c:1495). `UsableRangesMapped` says exactly which ranges end up mapped; `LongRangeIsCut` and `ShiftedTailNotMapped` are ranges for
  which the call succeeds and part stays unmapped.
- **A partial overlap needs two slots and checks one** (sysLib.c:2603-2638): the entry count
  leaves the array if and only if one is left (`CountOverrunsExactly`, `CountCanOverrun`).
- **The order of the enumeration can decide an interrupt.** It orders the list of bridges, and
  the first bridge to a bus is taken. The result is independent of the order when bridges to the
  same bus sit at the same place (`EnumerationOrderIrrelevant`), for plain bridges only then
  (`OrderIrrelevantExactly`, `EnumerationOrderExactly`); `EnumerationOrderCanMatter` is an example.
- **The root directory size drops a carry** (vxStage1Boot.s:825), and LOOP takes a count of zero
  for 65536. The scan is over the sectors of the root directory exactly when that is not empty
  and the addition stays within 16 bits (`RootCountExactly`); 2047 entries are an example
  (`RootCountCanBeLost`).
- **Ten cylinder bits** reach the BIOS: the register packing decodes to the sector asked for
  exactly when its cylinder is below 1024 (`RoundTripExactly`); beyond, another sector is read
  (`CylinderCanBeLost`) or the division faults before that (`DivisionCanFault`).
- **The loader reads one sector more than the file needs** when that is whole sectors
  (vxStage1Boot.s:940-942). It loads a file if and only if the last sector it reads is there
  (`ExtentLoadsExactly`, `LoadsTheFile`), and halts on a file of whole sectors at the end of the
  disk (`EndOfDiskHalts`, with `LastSectorCanHalt` as an example).
- **The divisor latch** holds the divisor exactly when it is below 65536
  (`LatchBytesRecombine`, `LatchCanCutDivisor`).

## Model

| member | source | states |
|---|---|---|
| `UartProtocol.MasksAreFields` | BSP_BT/vxbNs16550Sio.c:2880-2881 | setting and clearing an IER mask in the byte changes exactly that field of the register record |
| `UartProtocol.RunsCompose` | BSP_BT/vxbNs16550Sio.c:2828-2978 | runs of interleaved sections can be put one after the other |
| `UartSafety.DeferStep` | BSP_BT/vxbNs16550Sio.c:2911-2929 | every step of every thread keeps: exactly one write job pending when `txDefer` is set, none when it is clear |
| `UartSafety.FlowStep` | BSP_BT/vxbNs16550Sio.c:2700-2732 | every step keeps: bytes pulled are bytes written plus at most one in hand, and a burst never exceeds the FIFO |
| `UartSafety.EveryRun` | BSP_BT/vxbNs16550Sio.c:2678-2978 | the invariants that go with what the other threads and the line refrain from hold after every run: nothing (pending jobs, byte flow), looking at CTS while it is off (also register agreement and wake-up), setting modes and options carelessly (also the receive discipline), or setting options at all (also conservation) |
| `UartSafety.EveryReachable` | BSP_BT/vxbNs16550Sio.c:2678-2978 | the same for any two states one of which is reachable from the other by such a run, as the routines' contracts relate them |
| `UartSafety.WriteJobNeverDoubled` | BSP_BT/vxbNs16550Sio.c:2689-2698 | from start-up, in every run, pending write jobs number 1 or 0 as `txDefer` says, and at most one is queued |
| `UartSafety.BytesConserved` | BSP_BT/vxbNs16550Sio.c:2700-2732 | in every run THR gets the bytes pulled, in order, at most one in flight; RBR bytes are delivered once and in order; the transmit FIFO never overflows |
| `UartSafety.RegsStep` | BSP_BT/vxbNs16550Sio.c:2520-2562 | every clear-to-send step keeps, for all options: in interrupt mode the shadow IER is contained in the hardware IER, and the modem status interrupt is enabled exactly without CLOCAL |
| `UartSafety.ArmedStep` | BSP_BT/vxbNs16550Sio.c:3018-3057 | every clear-to-send step keeps, for all options: announced characters have a pending or running write job, or the Tx bit |
| `UartSafety.NoLostWakeup` | BSP_BT/vxbNs16550Sio.c:3018-3062 | in every run in which CTS is on wherever it is looked at, or CLOCAL holds, in interrupt mode: a queued and announced character that is not yet pulled has a write job pending, one still pulling, or the Tx bit in shadow and hardware |
| `UartSafety.StartupIsNotLost` | BSP_BT/vxbNs16550Sio.c:3018-3062 | the same in terms of a completed start-up call: as long as a character queued by then is not pulled |
| `UartSafety.ArmedCounts` | BSP_BT/vxbNs16550Sio.c:3018-3062 | characters once announced and not yet pulled stay counted as such, in every run |
| `UartSafety.InvWakeup` | BSP_BT/vxbNs16550Sio.c:3018-3062 | the same in every state in which the clear-to-send invariants hold, so after every routine that keeps them |
| `UartSafety.ReadStep` | BSP_BT/vxbNs16550Sio.c:2868-2894 | every steady step keeps: at most one read job, and the Rx bit set in shadow and hardware exactly when there is none |
| `UartSafety.SteadyStep` | BSP_BT/vxbNs16550Sio.c:2678-2978 | all invariants but conservation are kept by every clear-to-send step that keeps CREAD and interrupt mode and sets them only with the Rx bit set |
| `UartSafety.CarefulStep` | BSP_BT/vxbNs16550Sio.c:2678-2978 | and conservation, too, by every such step that sets no options |
| `UartSafety.NoLostOrDoubledRead` | BSP_BT/vxbNs16550Sio.c:2782-2793 | in every steady run, mode and option settings included, with and without CLOCAL: Rx enabled in shadow and hardware exactly when no read job is outstanding, at most one ever, at most two jobs queued, and bytes read are delivered once and in order or in hand; without option settings, which reset the FIFOs, arrived bytes are read or in the FIFO, in order |
| `UartSafety.ModeSetKeepsReadDiscipline` | BSP_BT/vxbNs16550Sio.c:2525-2529 | after setting interrupt mode again, no steady run ever has two read jobs outstanding if and only if CLOCAL was off or the Rx bit set in the shadow at the call |
| `UartSafety.OptsSetKeepsReadDiscipline` | BSP_BT/vxbNs16550Sio.c:2195-2203 | after setting options, no steady run ever has two read jobs outstanding if and only if they leave CREAD out or the Rx bit was set in the shadow at the call |
| `UartSafety.OneReadStep` | BSP_BT/vxbNs16550Sio.c:2868-2894 | whatever the options, every steady step keeps: at most one read job, and none while the Rx bit is set in shadow or hardware |
| `UartSafety.SecondRead` | BSP_BT/vxbNs16550Sio.c:2868-2894 | with a read job outstanding and Rx enabled in hardware, a run to two outstanding read jobs |
| `UartSafety.SettingCanDoubleReadJob` | BSP_BT/vxbNs16550Sio.c:2195-2203 | from start-up, a run that ends with two read jobs queued, by setting interrupt mode again under CLOCAL or by setting the options in force again |
| `UartQuiet.PollSilencesAtOnce` | BSP_BT/vxbNs16550Sio.c:2556-2557 | right after poll mode is set, in every state, the chip can raise no data and no modem interrupt |
| `UartQuiet.PollSilencesExactly` | BSP_BT/vxbNs16550Sio.c:2488-2490 | the interrupts stay off in every run without a setting of interrupt mode if and only if no interrupt was being served, no job queued and none running when poll mode was set |
| `UartQuiet.PollModeRaisesNothing` | BSP_BT/vxbNs16550Sio.c:2488-2490 | and then no interrupt is raised in any such run |
| `UartQuiet.StoppedTransmitsNothing` | BSP_BT/vxbNs16550Sio.c:3035-3057 | without CLOCAL, a write job and the Tx bit, nothing is transmitted in any run in which CTS stays off where it is looked at |
| `UartQuiet.CtsOffStops` | BSP_BT/vxbNs16550Sio.c:2942-2958 | which is where the start-up call, the setting of interrupt mode, the CTS-change interrupt with CTS off and the loss of CLOCAL lead when no write job is about |
| `UartQuiet.CtsOnStarts` | BSP_BT/vxbNs16550Sio.c:2806-2807 | the interrupt that reports CTS enables the transmit interrupt in shadow and chip |
| `UartQuiet.StoppedListens` | BSP_BT/vxbNs16550Sio.c:2129-2136 | and in interrupt mode without CLOCAL that interrupt is enabled |
| `UartQuiet.DeafReadsNothing` | BSP_BT/vxbNs16550Sio.c:2195-2198 | without a read job and the Rx bit nothing is read in any run that sets neither CREAD nor interrupt mode under CLOCAL |
| `UartQuiet.OptsSetDeafensExactly` | BSP_BT/vxbNs16550Sio.c:2195-2203 | which is where setting options leads if and only if they leave CREAD out and no read job is outstanding |
| `UartQuiet.ModeSetHears` | BSP_BT/vxbNs16550Sio.c:2525-2529 | setting interrupt mode under CLOCAL enables reception in the chip, CREAD or not |
| `UartQuiet.IsrRestoresRegister` | BSP_BT/vxbNs16550Sio.c:2970 | every look that served a source leaves the chip enabling what the shadow says; a line status interrupt leaves the shadow |
| `UartQuiet.ModeSetStartsChip` | BSP_BT/vxbNs16550Sio.c:2525-2529 | interrupt mode under CLOCAL lets the chip raise both data interrupts and leaves the shadow |
| `UartQuiet.StartupLeavesPendingJob` | BSP_BT/vxbNs16550Sio.c:3022-3028 | while a write job is pending the start-up call enables nothing |
| `UartQuiet.CallersRestoreRegister` | BSP_BT/vxbNs16550Sio.c:3057 | start-up calls and option settings in interrupt mode leave the chip enabling what the shadow says |
| `UartQuiet.OtherEnablesStay` | BSP_BT/vxbNs16550Sio.c:2678-3078 | no event touches the line status enable, only option setting the modem status enable, only ISR, read job and option setting the receive enable |
| `UartQuiet.SettingsAreKept` | BSP_BT/vxbNs16550Sio.c:2205 | options and mode in force are those last set |
| `UartQuiet.OptsSetLosesFifos` | BSP_BT/vxbNs16550Sio.c:2179-2182 | setting options loses exactly what the FIFOs hold |
| `UartDelivery.RankDrops` | BSP_BT/vxbNs16550Sio.c:2700-2744 | each step of the remaining work lowers a rank, so no interrupt storm and no endless handover between ISR and worker |
| `UartDelivery.AlwaysComesToRest` | BSP_BT/vxbNs16550Sio.c:2678-2794 | every schedule of the remaining work is finite |
| `UartDelivery.UrgentRunAddsNothing` | BSP_BT/vxbNs16550Sio.c:2678-2794 | nothing new comes in meanwhile, and characters all announced stay so |
| `UartDelivery.RestMeansDelivered` | BSP_BT/vxbNs16550Sio.c:2734-2739 | when nothing is left to do, every arrived byte was delivered and no announced byte is left |
| `UartDelivery.EverythingDelivered` | BSP_BT/vxbNs16550Sio.c:2678-2978 | from any state reached by a careful run, every maximal schedule of the remaining work sends exactly the queued bytes and delivers exactly the arrived ones, in order |
| `UartDelivery.RestIsReachable` | BSP_BT/vxbNs16550Sio.c:2678-2978 | from every such state a schedule leads to rest |
| `UartChannel.OthersKeepPc` | BSP_BT/vxbNs16550Sio.c:2874-2889 | the program counter of the ISR or of the worker moves only by its own events, and only the worker transmits |
| `UartChannel.LookReaches` | BSP_BT/vxbNs16550Sio.c:2829-2972 | one pass of the ISR over what the chip reports is a run of the transition system |
| `UartChannel.Channel.Interfere` | BSP_BT/vxbNs16550Sio.c:798-824 | other threads run only with the lock free, and only take steps of the system that the policy allows |
| `UartChannel.Channel.DeferJobAdd` | BSP_BT/vxbNs16550Sio.c:2883-2894 | a job is added behind the queued ones, with the channel lock free |
| `UartChannel.Channel.Int` | BSP_BT/vxbNs16550Sio.c:2814-2980 | the section for the source first reported takes place and the rest is a run the policy allows; the invariants are kept, the lock is free again and no posting is left open |
| `UartChannel.IntPci` | BSP_BT/vxbNs16550Sio.c:2828-2978 | for a device on PCI each channel of the list is served once, with what it reports then, while others run on all channels; the invariants of each are kept |
| `UartChannel.Channel.IntOnce` | BSP_BT/vxbNs16550Sio.c:2829-2976 | one pass: the source's section, then the posting after the unlock, others running in between as the policy allows; nothing at all when no interrupt is pending |
| `UartChannel.Channel.GetTxChar` | BSP_BT/vxbNs16550Sio.c:2710-2712 | called with the lock free; takes the next queued byte, or ends the write job when there is none |
| `UartChannel.Channel.SendChar` | BSP_BT/vxbNs16550Sio.c:2714-2725 | one byte goes to THR under the lock, which is given back |
| `UartChannel.Channel.SendBurst` | BSP_BT/vxbNs16550Sio.c:2706-2732 | a burst transmits exactly `fifoSize` bytes, or fewer when the source runs dry, each a step of the system, others running in between |
| `UartChannel.Channel.MoveOne` | BSP_BT/vxbNs16550Sio.c:2706-2732 | one byte moves from the source to THR, or the write job ends, others running before and in between |
| `UartChannel.Channel.FinishWrite` | BSP_BT/vxbNs16550Sio.c:2734-2740 | the Tx bit is set in shadow and chip before the lock is given back |
| `UartChannel.Channel.IntWr2` | BSP_BT/vxbNs16550Sio.c:2678-2745 | the write job terminates, is a run the policy allows from its entry to its end, keeps the invariants of the policy (the pending wake-up when clear to send), and leaves the lock as found on every path |
| `UartChannel.Channel.PollInput` | BSP_BT/vxbNs16550Sio.c:3163-3192 | the oldest received byte, or nothing read and nothing changed |
| `UartChannel.Channel.PutRcvChar` | BSP_BT/vxbNs16550Sio.c:2776 | called with the lock free; the byte is appended to what was delivered |
| `UartChannel.Channel.FinishRead` | BSP_BT/vxbNs16550Sio.c:2790-2793 | the Rx bit is set in shadow and chip before the lock is given back |
| `UartChannel.Channel.IntRd2` | BSP_BT/vxbNs16550Sio.c:2759-2794 | the read job terminates, is a run the policy allows, keeps the invariants of the policy (the receive discipline in steady runs), and leaves the lock as found |
| `UartChannel.Channel.RunJob` | BSP_BT/vxbNs16550Sio.c:2678-2794 | the worker takes the oldest job, others run, and the job runs to its end: a run the policy allows, its invariants kept |
| `UartChannel.Channel.TxStartup` | BSP_BT/vxbNs16550Sio.c:2998-3078 | the new state for every mode, option and CTS value; ENOSYS exactly outside interrupt mode; the lock stays with a caller that held it and is free otherwise, in both builds |
| `UartChannel.Channel.ModeSet` | BSP_BT/vxbNs16550Sio.c:2495-2566 | the new state for both modes; an unknown mode is refused and changes nothing; the lock is left as found |
| `UartChannel.Channel.OptsSet` | BSP_BT/vxbNs16550Sio.c:2081-2210 | ERROR and no change for undefined option bits; else the new interrupt enables, options and emptied FIFOs; the lock is free again |
| `BaudRate.DivisorBrackets` | BSP_BT/vxbNs16550Sio.c:2445 | 16 baud d <= xtal + 8 baud < 16 baud (d + 1), without overflow |
| `BaudRate.DivisorIsNearest` | BSP_BT/vxbNs16550Sio.c:2445 | the divisor is floor((xtal + 8 baud) / (16 baud)), off by at most half a step, no integer is nearer, and it is at least 1 exactly when 8 baud <= xtal |
| `BaudRate.LatchBytesRecombine` | BSP_BT/vxbNs16550Sio.c:2461-2464 | the two latch bytes give the divisor back if and only if it is below 65536 |
| `BaudRate.LatchCanCutDivisor` | BSP_BT/vxbNs16550Sio.c:2445-2464 | a clock and a rate whose divisor does not come back |
| `BaudRate.HsuartClockIsRight` | BSP_BT/vxbNs16550Sio.c:2344-2363 | the m/n divider and the input clock always describe one 100 MHz source, and the four special rates are met exactly |
| `BaudRate.UsualRatesExact` | BSP_BT/vxbNs16550Sio.c:2358-2362 | the clock of the other rates meets 115200 baud and every rate that divides it exactly |
| `BaudRate.ClockWordsAre` | BSP_BT/vxbNs16550Sio.c:2376-2379 | the three divider words, bit for bit |
| `BaudRate.RtsOverrideBit` | BSP_BT/vxbNs16550Sio.c:2383-2385 | bit 3 is set and no other bit changes |
| `BaudRate.ClockFields` | BSP_BT/vxbNs16550Sio.c:2376-2379 | m and n read back from the divider word with its control bits |
| `BaudRate.BaudChannel.LoadLatch` | BSP_BT/vxbNs16550Sio.c:2456-2468 | the latch is loaded and LCR restored; no byte is transmitted and IER is untouched although the latch shares their addresses |
| `BaudRate.BaudChannel.BaudSet` | BSP_BT/vxbNs16550Sio.c:2433-2475 | the latch holds the divisor of the rate, which is recorded |
| `BaudRate.BaudChannel.HsuartBaudSet` | BSP_BT/vxbNs16550Sio.c:2326-2419 | clock, divider and latch fit the rate, the RTS override is set and the transmit counter interrupt masked; with LSR reading 0xff the latch and the rate stay as they were |
| `BootGeometry.UnpackPack` | BSP_BT/vxStage1Boot.s:1109-1120 | decoding the registers gives the sector minus the cylinders lost above ten bits |
| `BootGeometry.RoundTripExactly` | BSP_BT/vxStage1Boot.s:1109-1120 | the sector comes back if and only if its cylinder is below 1024 |
| `BootGeometry.CylinderCanBeLost` | BSP_BT/vxStage1Boot.s:1109-1120 | the first sector of cylinder 1024 (63 sectors, 16 heads) is read as sector 0 |
| `BootGeometry.DivisionCanFault` | BSP_BT/vxStage1Boot.s:1109-1110 | with 63 sectors and 255 heads the track number of that cylinder does not fit and DIV faults |
| `BootGeometry.CylinderBelow` | BSP_BT/vxStage1Boot.s:1109-1114 | for every geometry the sectors with a cylinder below 1024 are those of the first 1024 cylinders |
| `BootGeometry.FoldCylinder` | BSP_BT/vxStage1Boot.s:1115-1119 | exchange, shift and OR put the low cylinder byte in CH and the two high bits above the sector in CL |
| `BootGeometry.PackRegisters` | BSP_BT/vxStage1Boot.s:1107-1120 | the registers are the packing of the sector; DIV faults exactly when the track number does not fit 16 bits |
| `BootLayout.ReadsTheSector` | BSP_BT/vxStage1Boot.s:1107-1121 | a sector of the disk whose registers decode to it is delivered, however large the disk |
| `BootLayout.NearExactly` | BSP_BT/vxStage1Boot.s:1107-1121 | the sectors at the start of the disk taken as addressable are exactly those on it with a 16-bit track and a cylinder below 1024 |
| `BootLayout.RootStartExactly` | BSP_BT/vxStage1Boot.s:805-820 | the start computed is where the root directory lies when hidden sectors, reserved sectors and the FAT copies follow one another, if and only if that is below 2^32 |
| `BootLayout.RootSectorsHold` | BSP_BT/vxStage1Boot.s:822-828 | the root sectors hold all entries, and one less would not |
| `BootLayout.RootCountExactly` | BSP_BT/vxStage1Boot.s:822-828 | the computed root sector count is the rounded-up quotient if and only if the addition does not carry out of 16 bits, and LOOP runs as many rounds if and only if moreover the directory is not empty |
| `BootLayout.RootCountCanBeLost` | BSP_BT/vxStage1Boot.s:822-828 | 2047 entries of 32 bytes: 128 sectors needed, none counted, 65536 rounds |
| `BootLayout.ScanSector` | BSP_BT/vxStage1Boot.s:846-872 | a reported offset is an entry of the sector that has the 11-byte name |
| `BootLayout.EntryFieldsAre` | BSP_BT/vxStage1Boot.s:914-958 | cluster and size are the little-endian numbers at bytes 26 and 28 of the entry, or at 58 and 60 with long names |
| `BootLayout.NameSpells` | BSP_BT/vxStage1Boot.s:846-863 | the name compared spells BOOTAPP SYS |
| `BootLayout.ScanSectorIsFirst` | BSP_BT/vxStage1Boot.s:849-872 | no earlier entry has the name, and none has it when nothing is reported |
| `BootLayout.FoundHasTheName` | BSP_BT/vxStage1Boot.s:830-879 | an entry found in the root directory has the name and lies in a sector among those scanned |
| `BootLoader.CarryChain` | BSP_BT/vxStage1Boot.s:805-811 | the ADD/ADC sequence computes the 32-bit sum of FATs, reserved and hidden sectors |
| `BootLoader.Loader.AddToStart` | BSP_BT/vxStage1Boot.s:911-912 | the two words hold the 32-bit sum afterwards |
| `BootLoader.Loader.ReadDisk` | BSP_BT/vxStage1Boot.s:1107-1121 | the buffer holds the sector delivered, or carry is set and the buffer is as before |
| `BootLoader.Loader.FindRoot` | BSP_BT/vxStage1Boot.s:805-820 | data_start is the start computed, which `RootStartExactly` places behind the last FAT |
| `BootLoader.Loader.CountRoot` | BSP_BT/vxStage1Boot.s:822-828 | the count computed in registers, with its lost carry |
| `BootLoader.Loader.FindInBuffer` | BSP_BT/vxStage1Boot.s:846-872 | the loop finds exactly the first entry with the name |
| `BootLoader.Loader.FindFile` | BSP_BT/vxStage1Boot.s:830-879 | the scan over all root sectors, 65536 rounds for a count of zero; the entry found, the count left and how far data_start has moved |
| `BootLoader.Loader.ToDataArea` | BSP_BT/vxStage1Boot.s:910-912 | adding the count left makes data_start the start of the data area, whichever sector held the entry |
| `BootLoader.Loader.CopyBuffer` | BSP_BT/vxStage1Boot.s:1070-1095 | 512 bytes are copied, every other byte of memory stays |
| `BootLoader.Loader.ReadEntry` | BSP_BT/vxStage1Boot.s:914-958 | file size, sector count and first sector of the entry, short and long names; DIV faults exactly when the quotient does not fit |
| `BootLoader.Loader.LoadSectors` | BSP_BT/vxStage1Boot.s:968-1000 | memory from ROM_TEXT_ADRS holds the consecutive sectors and the rest of memory is unchanged, also when the counter word starts at zero |
| `BootLoader.Loader.LoadFile` | BSP_BT/vxStage1Boot.s:905-1000 | what loading one directory entry leaves in memory |
| `BootLoader.Loader.Boot` | BSP_BT/vxStage1Boot.s:804-1000 | the run ends as `Load` says: image in memory and entered, no file and memory untouched, or halted |
| `BootEndToEnd.NearDelivers` | BSP_BT/vxStage1Boot.s:1107-1121 | every addressable sector can be read by its number |
| `BootEndToEnd.NamedExactly` | BSP_BT/vxStage1Boot.s:849-863 | an entry matches if and only if its eleven characters are BOOTAPP SYS |
| `BootEndToEnd.ScanFindsFirst` | BSP_BT/vxStage1Boot.s:830-879 | the scan stops at the first sector in which there is a match |
| `BootEndToEnd.ScanMissesExactly` | BSP_BT/vxStage1Boot.s:874-885 | it reports no file if and only if no root sector has a match |
| `BootEndToEnd.ImageIs` | BSP_BT/vxStage1Boot.s:970-1000 | the image is, byte by byte, the sectors read |
| `BootEndToEnd.FirstSectorIs` | BSP_BT/vxStage1Boot.s:946-958 | cluster to sector conversion does not wrap on the disk |
| `BootEndToEnd.FoundLoads` | BSP_BT/vxStage1Boot.s:905-912 | for fewer than 65536 root sectors the data area starts after the root directory whichever root sector held the entry |
| `BootEndToEnd.ImageGrows` | BSP_BT/vxStage1Boot.s:970-1000 | reading one more sector appends it to the image, or there is no image |
| `BootEndToEnd.ExtentLoadsExactly` | BSP_BT/vxStage1Boot.s:940-1000 | a file lying on the disk is loaded if and only if its sectors can be counted in a word and the last one read is there; otherwise the loader halts |
| `BootEndToEnd.LoadsTheFile` | BSP_BT/vxStage1Boot.s:804-1000 | end to end, on disks of any size: for a contiguous file in addressable sectors named by the first matching entry of the directory behind the last FAT, the image begins with exactly the file's bytes and is at most a sector longer, if and only if the last sector read is there |
| `BootEndToEnd.PartialSectorSuffices` | BSP_BT/vxStage1Boot.s:940-942 | which it is for every file that ends inside a sector |
| `BootEndToEnd.EndOfDiskHalts` | BSP_BT/vxStage1Boot.s:940-942 | and is not for a file of whole sectors at the end of the disk: the loader halts |
| `BootEndToEnd.LastSectorCanHalt` | BSP_BT/vxStage1Boot.s:940-942 | a disk of four sectors with such a file |
| `BootEndToEnd.MemoryHoldsTheFile` | BSP_BT/vxStage1Boot.s:968-1000 | and memory from ROM_TEXT_ADRS holds exactly the file's bytes; below it, and from a sector after the file's end on, memory is as it was |
| `BootEndToEnd.BootTheFile` | BSP_BT/vxStage1Boot.s:804-1000 | the loader, run on such a volume, enters the image, with exactly the file's bytes in memory from ROM_TEXT_ADRS and the recorded size, if the last sector read is there, and halts otherwise |
| `BootEndToEnd.NotFoundExactly` | BSP_BT/vxStage1Boot.s:881-885 | "not found" if and only if no root entry has the name |
| `BootSector.BytesMakeWord` | BSP_BT/vxsysnt.c:33-43 | the four bytes written for a 32-bit value read back as that value |
| `BootSector.DataSecExactly` | BSP_BT/vxsysnt.c:646-650 | when the sum of the parts does not wrap, the overflow test decides whether they fit |
| `BootSector.FatTestExactly` | BSP_BT/vxsysnt.c:718-722 | the FAT size test holds exactly when each copy has room for clusters + 2 entries of 12 bits below 4085 clusters and of 16 bits from there on |
| `BootSector.AcceptsExactlyLegal` | BSP_BT/vxsysnt.c:635-722 | a sector is a legal FAT12/16 volume over the integers if and only if it is accepted, its cluster size is not zero and its parts do not wrap |
| `BootSector.ParametersAre` | BSP_BT/vxsysnt.c:13-22 | the parameters are the little-endian numbers at their places in the sector, with the 32-bit fields where the 16-bit ones are zero |
| `BootSector.SignedBytes` | BSP_BT/vxsysnt.c:690-691 | the signature is 55 AA at 510 or at the end of the sector |
| `BootSector.PowersOfTwo` | BSP_BT/vxsysnt.c:709-713 | the cluster sizes listed are the powers of two below 256 |
| `BootSector.FloppyAccepted` | BSP_BT/vxsysnt.c:685-722 | the 1.44 MB floppy, FAT12, is accepted and legal |
| `BootSector.Fat16Accepted` | BSP_BT/vxsysnt.c:685-722 | so is a FAT16 volume of 16 MB |
| `BootSector.LargeVolumeAccepted` | BSP_BT/vxsysnt.c:641-645 | and one of 64 MB with a 32-bit sector count |
| `BootSector.SmallFatNeverWraps` | BSP_BT/vxsysnt.c:636-650 | in an accepted sector with a 16-bit FAT size nothing wraps |
| `BootSector.AcceptedLayoutFits` | BSP_BT/vxsysnt.c:635-722 | with a 16-bit FAT size and a cluster size, accepted is the same as legal: parts within the volume within the partition, fewer than 65525 clusters, FAT copies large enough |
| `BootSector.ZeroClusterSizeAccepted` | BSP_BT/vxsysnt.c:713 | a sector with cluster size zero that is accepted |
| `BootSector.WrappingFatAccepted` | BSP_BT/vxsysnt.c:646-650 | a sector whose FAT copies wrap around and that is accepted |
| `BootSector.Install` | BSP_BT/vxsysnt.c:772-783 | the sector buffer afterwards, byte by byte |
| `BootSector.InstallKeepsVerdict` | BSP_BT/vxsysnt.c:685-790 | installing boot code never changes the verdict of the check |
| `BootSector.InstallIdempotent` | BSP_BT/vxsysnt.c:772-783 | installing twice is installing once |
| `BootSector.InstallPreserves` | BSP_BT/vxsysnt.c:772-783 | bytes 3 to 0x3d outside the hidden-sector field, the signature and what follows stay; the hidden-sector value reads back |
| `BootSector.CheckAndDo` | BSP_BT/vxsysnt.c:685-790 | new code, restored sector or unchanged sector as asked for; a rejected sector stays as it is unless the check is skipped; a sector that got new code or was only saved is still accepted |
| `MmuTable.FirstHit` | BSP_BT/sysLib.c:2527-2599 | the entry the scan stops at is the first one that contains or partially overlaps the request |
| `MmuTable.PhysMemTable.SysMmuMapAdd` | BSP_BT/sysLib.c:2480-2643 | the routine in place computes exactly `Add`: the whole table, the count and the status, whenever the slot it looks at is in the array |
| `MmuTable.PhysMemTable.Enter` | BSP_BT/sysLib.c:2610-2638 | up to three writes to one slot: the last one stays and each is counted |
| `MmuCoverage.RoundingIs` | BSP_BT/sysLib.c:2519-2521 | the pages of a request start at or below its address, less than a page away, and its length is rounded up by less than a page |
| `MmuCoverage.HitShape` | BSP_BT/sysLib.c:2536-2577 | the three cases as facts about half-open ranges, without wrap-around |
| `MmuCoverage.RemainderIsExact` | BSP_BT/sysLib.c:2569-2594 | the entry added for a partial overlap covers exactly the addresses of the request that were not covered |
| `MmuCoverage.AddKeepsAndCovers` | BSP_BT/sysLib.c:2601-2642 | one call keeps the table well formed, alters no active entry, changes nothing on ERROR, and on OK covers the request with identity mappings of the requested mask and state |
| `MmuCoverage.ErrorExactly` | BSP_BT/sysLib.c:2539-2607 | for any table the call fails if and only if the first entry met has other attributes, or a slot is needed and the next one is taken |
| `MmuCoverage.CountOverrunsExactly` | BSP_BT/sysLib.c:2603-2638 | the number of active entries leaves the array if and only if a partial overlap finds one free slot only |
| `MmuCoverage.CountCanOverrun` | BSP_BT/sysLib.c:2603-2638 | an array of two with one entry: the call returns OK and counts three |
| `MmuCoverage.PagesHoldBytesExactly` | BSP_BT/sysLib.c:2519-2522 | the pages requested hold the bytes asked for if and only if the length counted from the page start rounds to the same |
| `MmuCoverage.OkStaysCovered` | BSP_BT/sysLib.c:2480-2643 | after any sequence of calls, every request that returned OK is still covered and every earlier entry is as it was |
| `MmuCoverage.EmptyTableMapsNothing` | BSP_BT/sysLib.c:2527-2601 | without active entries the call returns OK and adds nothing |
| `MmuCoverage.DisjointKeptExactly` | BSP_BT/sysLib.c:2527-2639 | a successful call keeps live entries pairwise disjoint if and only if the request is disjoint from all, inside one, or overlaps exactly one by at least two pages without enclosing it |
| `MmuCoverage.BenignRunsStayDisjoint` | BSP_BT/sysLib.c:2527-2639 | over any sequence of such or refused requests live entries stay pairwise disjoint |
| `MmuCoverage.MeetingKinds` | BSP_BT/sysLib.c:2539-2577 | an entry that meets the request contains it, lies over one end by two pages or more, over one end by one page, or is enclosed; the scan sees exactly the first two kinds |
| `MmuCoverage.ConflictAcceptedExactly` | BSP_BT/sysLib.c:2471-2473 | on disjoint entries a conflicting request is accepted if and only if the scan sees no entry, or the first it sees lies over an end and has the requested attributes |
| `MmuCoverage.AcceptedConflictOverlaps` | BSP_BT/sysLib.c:2471-2473 | every accepted conflict leaves a page mapped twice |
| `MmuCoverage.BenignConflictsAreRefused` | BSP_BT/sysLib.c:2471-2473 | among benign requests exactly the conflicting ones return ERROR |
| `MmuCoverage.EnclosingConflictIsAccepted` | BSP_BT/sysLib.c:2527-2601 | a request enclosing an entry with other attributes returns OK |
| `MmuCoverage.OnePageConflictIsAccepted` | BSP_BT/sysLib.c:2556-2557 | so does one that shares one page at its end with such an entry |
| `MmuCoverage.LaterConflictIsAccepted` | BSP_BT/sysLib.c:2596-2597 | and one that meets such an entry behind a suiting one |
| `MmuE820.RequestsCovered` | BSP_BT/sysLib.c:1480-1500 | every range of usable memory not at 0 or 1 MB, beginning below 2^32 and of at least 4 MB, before the first refusal has its request covered at the end, and the loop stops early only at such a range that is refused |
| `MmuE820.NothingElseMapped` | BSP_BT/sysLib.c:1480-1500 | and nothing else is mapped: every entry added covers only addresses requested for some such range |
| `MmuE820.InPagesExactly` | BSP_BT/sysLib.c:1488-1497 | the pages of the call hold the BIOS range if and only if its length is below 2^32 and, counted from the page start, rounds to the same |
| `MmuE820.UsableRangesMapped` | BSP_BT/sysLib.c:1470-1500 | a processed range ends up identity-mapped as a whole with the mask and state if and only if it is shorter than 2^32 and its pages were requested or the page behind them is mapped anyway; one that starts on a page if and only if it is shorter than 2^32 |
| `MmuE820.LongRangeNotMapped` | BSP_BT/sysLib.c:1492-1495 | no range of 2^32 bytes or more is ever mapped as a whole |
| `MmuE820.LongRangeIsCut` | BSP_BT/sysLib.c:1495 | a range of 4 GB and 4 MB for which the call succeeds |
| `MmuE820.ShiftedTailNotMapped` | BSP_BT/sysLib.c:1494-1495 | a range starting in the middle of a page whose tail stays unmapped although the call succeeds |
| `MmuE820.MapAll` | BSP_BT/sysLib.c:1470-1500 | the loop leaves exactly the table of that specification |
| `PciRouting.FindMpEntry` | BSP_BT/pciCfgIntStub.c:264-309 | the irq of the first entry that matches bus, device and pin, and ERROR exactly when none does |
| `PciRouting.MatchesExactly` | BSP_BT/pciCfgIntStub.c:288-290 | an entry encoding a device and a pin matches them and nothing else |
| `PciRouting.OtherApicKeepsInput` | BSP_BT/pciCfgIntStub.c:294-300 | outside the known IO APICs the irq is the input number |
| `PciRouting.IrqTellsApicAndPin` | BSP_BT/sysLib.c:662-670 | IO APIC and input are quotient and remainder of the irq number |
| `PciRouting.RootExitChangesNothing` | BSP_BT/pciCfgIntStub.c:534-536 | the climb with the exit at the root bus and the climb without resolve alike |
| `PciRouting.ClimbRound` | BSP_BT/pciCfgIntStub.c:501-548 | each round either ends or moves to a lower bus number, which bounds the climb for every list order |
| `PciRouting.SwizzleShifts` | BSP_BT/pciCfgIntStub.c:505 | swizzling bridge by bridge is swizzling by the sum of the device numbers |
| `PciRouting.ClimbIsLowestSwizzled` | BSP_BT/pciCfgIntStub.c:501-548 | above plain bridges of any depth the climb yields the irq of the lowest bridge with an entry of at least 16 at its pin 1 + (pin - 1 + device numbers below) mod 4 |
| `PciRouting.CardBusPinWins` | BSP_BT/pciCfgIntStub.c:516-522 | below a CardBus bridge with a pin of its own neither slot nor pin of the device matter; the bridge's pin number plus one is looked up |
| `PciRouting.OwnEntryWins` | BSP_BT/pciCfgIntStub.c:486-492 | a function with an entry of its own gets the irq of the first one |
| `PciRouting.OthersGetTheBridges` | BSP_BT/pciCfgIntStub.c:493-548 | one without, below plain bridges, gets what the lowest bridge with an entry of at least 16 yields |
| `PciRouting.NoPinNoIrq` | BSP_BT/pciCfgIntStub.c:483-484 | one without a pin gets nothing |
| `PciRouting.FirstUsableIs` | BSP_BT/pciCfgIntStub.c:524-532 | the lowest usable irq of a path is the one with none before it |
| `PciRouting.ClimbByParents` | BSP_BT/pciCfgIntStub.c:501-549 | lists in which alike bridges lead to each bus give the same climb |
| `PciRouting.OrderChangesNothing` | BSP_BT/pciCfgIntStub.c:507-512 | when bridges with the same secondary bus sit at the same place, neither order nor repetition in the list matters |
| `PciRouting.OrderCanMatter` | BSP_BT/pciCfgIntStub.c:507-512 | two plain bridges at different places with the same secondary bus: some MP table tells which is listed first |
| `PciRouting.OrderIrrelevantExactly` | BSP_BT/pciCfgIntStub.c:507-512 | for lists of plain bridges every rearrangement gives the same climbs if and only if bridges with the same secondary bus sit at the same place |
| `PciRouting.RescanChangesNothing` | BSP_BT/pciCfgIntStub.c:448-449 | listing every bridge a second time changes no resolution |
| `PciConfig.OtherBitsKept` | BSP_BT/pciCfgIntStub.c:374-377 | the routing-disable bit is set or cleared and the other seven bits stay |
| `PciConfig.OneStep` | BSP_BT/pciCfgIntStub.c:321-381 | programming one function changes its line and one route register and no resolution |
| `PciConfig.EnableAllExactly` | BSP_BT/pciCfgIntStub.c:584-588 | the value of every configuration address after a whole pass, for enabling and disabling |
| `PciConfig.EnumerationOrderIrrelevant` | BSP_BT/pciCfgIntStub.c:584-588 | when bridges with the same secondary bus sit at the same place, the space after both passes, of which the first fills the bridge list, does not depend on order or repetition of the enumeration |
| `PciConfig.EnumerationOrderExactly` | BSP_BT/pciCfgIntStub.c:584-588 | for plain bridges: whatever function is added, every rearrangement of the enumeration ends in the same space for every MP table, if and only if bridges with the same secondary bus sit at the same place |
| `PciConfig.EnumerationOrderCanMatter` | BSP_BT/pciCfgIntStub.c:584-588 | two bridges to one bus: the device there gets the irq of the bridge enumerated first |
| `PciConfig.BridgesStay` | BSP_BT/pciCfgIntStub.c:584-588 | no pass changes what a bridge is recognised by |
| `PciConfig.SecondEnableResolvesAlike` | BSP_BT/pciCfgIntStub.c:584-588 | with every bridge listed twice and in the space a first pass left, every function resolves as before |
| `PciConfig.SecondEnableChangesNothing` | BSP_BT/pciCfgIntStub.c:584-588 | repeating the pass changes no byte |
| `PciConfig.EnabledSpace` | BSP_BT/pciCfgIntStub.c:338-380 | after enabling, each resolved function's line is its irq, bit 7 is set in addition exactly at the selected route registers, the other bits are as before |
| `PciConfig.LineOfOwnEntry` | BSP_BT/pciCfgIntStub.c:486-492 | after enabling, the line of an enumerated function with an entry of its own is that entry's irq |
| `PciConfig.LineOfBridges` | BSP_BT/pciCfgIntStub.c:493-548 | and without one, below plain bridges, the irq the bridges yield, if any and if it fits a byte |
| `PciConfig.RouteRegisters` | BSP_BT/pciCfgIntStub.c:347-369 | irqs 16 to 23 select the registers 60 to 63 and 68 to 6b, any other 60 |
| `PciConfig.BridgeAtIs` | BSP_BT/pciCfgIntStub.c:408-444 | what makes a function a bridge, and where its buses and pin are read |
| `PciRouter.Router.FindBridge` | BSP_BT/pciCfgIntStub.c:393-454 | a bridge function is appended to the linked list, another one changes nothing, ERROR exactly without memory |
| `PciRouter.Router.FindParent` | BSP_BT/pciCfgIntStub.c:507-512 | the walk stops at the first bridge whose secondary bus is the one asked for |
| `PciRouter.Router.ClimbList` | BSP_BT/pciCfgIntStub.c:501-549 | the nested loops terminate and compute the climb, with and without root exit |
| `PciRouter.Router.ShowIrq` | BSP_BT/pciCfgIntStub.c:600-682 | the irq shown is the one the function resolves to, the first own entry's if there is one; it is programmed when it is at most 0xff |
| `PciRouter.Router.ProgramIrq` | BSP_BT/pciCfgIntStub.c:321-381 | the configuration space afterwards, for all irq numbers |
| `PciRouter.Router.PirqEnable2` | BSP_BT/pciCfgIntStub.c:466-551 | one function's resolution is programmed, or nothing changes |
| `PciRouter.Router.ScanBridges` | BSP_BT/pciCfgIntStub.c:584-585 | the list grows by the bridges found, in order, as far as there is memory for them |
| `PciRouter.EnoughMemory` | BSP_BT/pciCfgIntStub.c:414-426 | with memory for each these are all the bridges |
| `PciRouter.Router.PirqEnable` | BSP_BT/pciCfgIntStub.c:562-589 | list and configuration space after both passes, with and without memory for every bridge; functions with an entry of their own end with its irq in their line; the list grows by new nodes only |
| `PciRouter.Router.EnableTwice` | BSP_BT/pciCfgIntStub.c:562-589 | two calls list the bridges twice, resolve every function alike, and, when the second repeats the first, change no further byte |

## Left out

UART:

- The interrupt enable register is a record of its four defined bits; `MasksAreFields` ties it to the byte. `ierInit` is assumed to hold no Rx, Tx or modem bit, which is what the driver sets up.
- What the chip does while the driver holds the lock is placed right after the section. The four sources of the interrupt identification register are modelled, the receive timeout as received data; an undefined code is not.
- Other threads act by a finite schedule that is arbitrary but given in advance; it bounds the loops of the two jobs, which have no bound of their own while characters keep coming.
- UartChannel.Channel.OptsSet: does not state the LCR and MCR values, the modem lines or the detection of the FIFO depth; `fifoSize` is fixed after the first option setting.
- HUPCL open and close and the SIO_DEV_LOCK calls.
- Polled output, which shares THR with the worker, is not modelled: the driver guarantees nothing for the mix. CTS stops transmission only when no write job is about, because the write job enables Tx without looking at CTS.
- UartSafety.NoLostOrDoubledRead: for steady runs, because other mode and option settings break it; `ModeSetKeepsReadDiscipline` and `OptsSetKeepsReadDiscipline` say exactly when. Bytes in a FIFO that option setting resets are lost, so that conservation is for careful runs.
- UartChannel.Channel.TxStartup: in a uniprocessor build the test whether the lock is held always says no, so a caller must not hold it there; the code would take it again. The time before the lock is in use, when taking it does nothing, is not modelled.
- UartChannel.Channel.ModeSet: likewise.
- UartDelivery.EverythingDelivered: for careful runs, and assuming that the chip eventually raises an enabled interrupt whose condition holds.

Baud rate:

- BaudRate.DivisorIsNearest: for rates below 2^29, above which 8 times the rate wraps (the driver admits rates from 50 to 460800, and HSUART rates up to 4000000), and without a BSP divisor hook.

Boot loader:

- The BIOS call is a function from sector number to contents or error; its five retries, the geometry query, console output and the switch to protected mode are left out. A division fault and a read error both count as halted.
- The sector size is 512 and directory entries are 32 or 64 bytes: the buffers and the copy length are fixed to that.
- BootLoader.Loader.Boot: needs RAM for 65536 sectors at ROM_TEXT_ADRS, the most it can be told to load.
- BootEndToEnd.LoadsTheFile: root directory and file lie in sectors the BIOS registers can address, below cylinder 1024 and on tracks numbered in 16 bits; the rest of the disk may be anywhere. `NearExactly` says which these are, `RoundTripExactly` what is read beyond. The entry's cluster is at least 2.
- Files that are not contiguous: the loader never reads the FAT.

Boot sector:

- The boot code is a parameter. Reading and writing drive and files, argument parsing and messages are left out, and the empty template used when no drive is named.

Memory table:

- MmuTable.PhysMemTable.SysMmuMapAdd: where the routine would look at a slot outside the array nothing is stated; it has no bounds check.
- Requests of the coverage theorems are not empty and do not wrap in 32 bits; coverage is stated for the range from the rounded-down address with the rounded-up length, which is what the routine maps.
- MmuCoverage.AddKeepsAndCovers: assumes at least one active entry, as the static table has; `EmptyTableMapsNothing` is the other case. The count must stay in the array; `CountOverrunsExactly` is the other case.
- The address-space size is taken as 2^32 and the page size as 4 KB; the attribute masks are parameters. Their headers are not part of this model.
- The initial table, the memory-top computation and the BIOS map library.

PCI:

- The enumeration of functions is a parameter, as is for which bridges there is memory for a record and whether the enumeration stops at an ERROR. Offsets and class codes of the configuration header are those of the PCI Local Bus Specification.
- PciConfig.EnumerationOrderExactly: for bridges that swizzle, and over all functions that could be added below, because without one on the shared bus the order need not show.
- PciRouting.OrderIrrelevantExactly: for bridges that swizzle. A CardBus bridge whose pin number is 4 is looked up under a pin no entry can have, so unlike bridges of that kind may be indistinguishable.
- PciRouting.ClimbIsLowestSwizzled: for bridges that swizzle; a CardBus bridge with an interrupt pin of its own passes that pin on, off by one as in the code, and is covered by `ClimbRound` and the list theorems.
- Every bridge's secondary bus number exceeds the bus it sits on; otherwise the code can climb for ever.
- The MP entry's type byte is not looked at, as in the code. MP table parsing is left out.
