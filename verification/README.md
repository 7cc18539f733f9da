# Driver protocols, verified

Dafny models of the drivers in this repository that hold a protocol, an allocator or a codec, with
proofs about all their runs or all their inputs. `dafny verify dfyconfig.toml` checks everything.

Each driver is modelled the way it is written: objects that are updated in place are classes, loops
are loops. A method is proved equal to a specification function (or meets its property outright), and
the theorems are about that function: what every run keeps, what is conserved, what is undone, what a
simple reference would have done.

| driver | modules |
|---|---|
| `net/snull` two virtual NICs on one medium | `SnullFrames`, `SnullNet`, `Snull` |
| `bttv-driver.c` TV capture | `BttvCrop`, `Bttv`, `BttvDriver`, `BttvHw` |
| e1000 management host interface | `Manage` |
| e1000 82543 MDIO bus | `Mdio` |
| e1000 EEPROM access | `Eeprom` |
| `ldt/misc_loop_drv.c` loopback device | `MiscLoop` |
| `tsc2007.c` touchscreen | `Tsc2007` |
| `Jollen/ldd-training/cdata.c` framebuffer | `Cdata` |
| `015_sbull` RAM disk | `Sbull` |
| shared bytes and arithmetic | `Bytes`, `Arith` |

## Main results

- **snull.** In every run, in both interrupt modes, no packet is lost, duplicated or in two lists, a
  running queue always finds a packet (exactly if each pool got one at load), statistics and frame
  contents balance between the two devices, regular mode delivers in order, and NAPI never strands a
  queued frame: as many polls as frames empty the queue. Under NAPI frames are taken, and then to be
  taken, in sending order exactly if none is sent while another still waits in the twin's queue; a burst
  arrives reversed, as the source's FIXME says.
- **bttv.** In every run by any number of handles the resource mask is partitioned among them. Video and
  VBI never claim the same line, exactly if no norm change with video free and no end of video capture
  finds VBI lines below the picture; runs from load show both ways to an overlap. When a resource is
  granted is told from the handles' masks alone. Crop windows are good at all times exactly if every window-moving size request and every
  single-field format meets a condition told beforehand; a run from load shows a window that leaves the
  picture. Setting a capture format never moves the window otherwise.
- **e1000.** The host-interface write, the DHCP command's checksum, the MDIO bus as a register file and
  the EEPROM's read-modify-write are each proved against their meaning, with the exact conditions
  under which a length wraps, a cookie is overwritten, a preamble is cut short or a set corrupts a byte
  outside its range and the checksum word.
- **misc_loop.** In every interleaving the delivered stream is the accepted one short of dropped bytes;
  nothing is dropped exactly if the writes leave no more outstanding than in_fifo holds, and a run from
  load shows a drop. From every state the driver drains, keeping what fits.
- **tsc2007, cdata, sbull.** Alternation of touch reports and how long polling lasts, equality with
  unbuffered streaming, and the rule for when a disk's contents survive.

Where one of these properties fails on some inputs, a lemma (mostly named `...Exactly`) gives the condition for
it as an equivalence. Drivers that serve sequences of requests have a method that takes any of them and is
proved to be a run with its invariants in memory: `Snull.LoadAndRun`, `BttvDriver.LoadAndServe`, `Mdio.Nic.Access`,
`MiscLoop.Driver.Calls`, `Tsc2007.Touchscreen.OnEvents`, `Cdata.Session`, `Sbull.Disk.OnEvents`.

## Model

| member | source | states |
|---|---|---|
| SnullFrames.RewriteInPlace | net/snull/snull.c:457-465 | the transmit buffer is rewritten in place: third octets of both addresses toggled, header checksum rebuilt |
| SnullFrames.RewrittenChangesOnly | net/snull/snull.c:461-465 | only bit 0 of the two octets and the checksum field differ, and the new checksum is the right one |
| SnullFrames.RewrittenHeaderVerifies | net/snull/snull.c:464-465 | the 4 * IHL bytes that the rewritten frame announces as its header pass the receiver's test of section 3.1 of RFC 791 (one's complement sum is all ones) |
| SnullFrames.WireBytes | net/snull/snull.c:509-532 | what arrives is the frame padded with zeros to 60 bytes, with bit 0 of the two octets flipped and only the checksum field besides |
| SnullFrames.RewrittenTwice | net/snull/snull.c:457-465 | a frame reflected by the twin is the original again, exactly if the original's checksum was right |
| SnullFrames.FoldIsResidue | net/snull/snull.c:465 | end-around carry keeps a sum's residue modulo 65535 and yields zero only for zero |
| SnullNet.TransmitKeeps | net/snull/snull.c:425-504 | a transmit keeps both directions' accounts and the interrupt-mode rules, in either mode |
| SnullNet.PolledKeeps | net/snull/snull.c:288-326 | a poll keeps them, delivers at most its budget, and reports the full budget exactly when it stays scheduled |
| SnullNet.PollLoopTakesPrefix | net/snull/snull.c:164-187 | a poll hands over a prefix of the queue, newest frame first |
| SnullNet.PollDropsFailed | net/snull/snull.c:288-326 | of the frames a poll takes exactly those are delivered whose allocation succeeds |
| SnullNet.PollingTwinIsNotInterrupted | net/snull/snull.c:485-490 | a frame sent to a device with receive interrupts off is queued there and nothing else happens to that device |
| SnullNet.RunKeeps | net/snull/snull.c:99-187 | every run of transmits, interrupts and polls on both devices keeps the invariant |
| SnullNet.EveryRun | net/snull/snull.c:254-504 | from module load: pool plus twin queue is the number allocated, stopped means empty pool, tx_packets and tx_bytes equal what the twin delivered, dropped and still queues, contents are conserved, NAPI queues always have interrupts off and a poll pending |
| SnullNet.PoolNeverEmptyOnTransmit | net/snull/snull.c:133-148 | no run takes from an empty pool, exactly if both pools got at least one packet |
| SnullNet.SentIsWiresOfAccepted | net/snull/snull.c:509-532 | the medium carries the padded and rewritten form of each accepted frame, in order |
| SnullNet.RegularModeDeliversInOrder | net/snull/snull.c:333-376 | each stack sees the wire form of the twin's accepted frames in sending order, exactly without those whose allocation failed |
| SnullNet.NapiOrderExactly | net/snull/snull.c:164-187 | in every NAPI run from load, whatever the budgets and allocation failures, distinct frames have been taken, and then are to be taken, in sending order exactly if each was sent into an empty receive queue |
| SnullNet.PollsDrain | net/snull/snull.c:288-326 | from any state of a NAPI run, once as many polls of budget at least one have come as frames were queued the queue is empty, whatever the allocations and other events, unless more was sent to it |
| SnullNet.StepOrderExactly | net/snull/snull.c:288-326 | one step keeps the order exactly if it does not put a frame in front of waiting ones; polls and interrupts always do |
| SnullNet.BurstIsDeliveredReversed | net/snull/snull.c:164-173 | the failing family: under NAPI a burst followed by a poll is delivered in reverse |
| Snull.SetupPool | net/snull/snull.c:99-116 | the pool is a well-formed list of fresh packets up to the first failed allocation |
| Snull.TeardownPool | net/snull/snull.c:118-128 | exactly the pooled packets are freed |
| Snull.GetTxBuffer | net/snull/snull.c:133-148 | takes the pool's head and stops the queue when the pool runs empty |
| Snull.ReleaseBuffer | net/snull/snull.c:151-162 | puts the packet back at the head and wakes the queue if the pool had been empty |
| Snull.EnqueueBuf | net/snull/snull.c:164-173 | puts the packet at the head of the receive queue |
| Snull.DequeueBuf | net/snull/snull.c:175-187 | takes the head of the receive queue, or nothing |
| Snull.Receive | net/snull/snull.c:254-282 | counts and hands up a frame, or counts it as dropped |
| Snull.OnRegularInterrupt | net/snull/snull.c:333-376 | is the regular interrupt step; lists and packet sets stay intact |
| Snull.OnNapiInterrupt | net/snull/snull.c:381-418 | is the NAPI interrupt step |
| Snull.OnPoll | net/snull/snull.c:288-326 | is the poll step, allocation failures included |
| Snull.HwTx | net/snull/snull.c:425-504 | is the transmit step for the rewritten frame; too short a buffer changes nothing |
| Snull.OnTransmit | net/snull/snull.c:509-532 | transmits the padded frame; short frames are padded in a scratch buffer |
| Snull.ListsAreDisjoint | net/snull/snull.c:63-68 | no packet is in two lists or twice in one |
| Snull.Medium.Run | net/snull/snull.c:99-532 | in memory: every run keeps all four lists acyclic, disjoint and complete, keeps each device's set of packets, and is a run of the state machine |
| Snull.Load | net/snull/snull.c:646-684 | module load yields the booted state with exactly the packets kmalloc granted before its first failure |
| Snull.LoadAndRun | net/snull/snull.c:646-730 | load followed by any events is a run from the state booted with the packets granted, and keeps its invariant |
| BttvCrop.NormsAreOk | Jollen/ldd-training/kernel/bttv-driver.c:241-476 | every norm's default window lies in its bounds, on even lines, at least 48x32 |
| BttvCrop.RequestedCropIsOk | Jollen/ldd-training/kernel/bttv-driver.c:3052-3079 | an accepted window request yields a good window below the VBI lines, unchanged if it already was one |
| BttvCrop.RequestedCropIsNearest | Jollen/ldd-training/kernel/bttv-driver.c:3052-3079 | each edge and extent of a window request goes to the nearest admissible value, vertically among even ones |
| BttvCrop.SizedWidthInRange | Jollen/ldd-training/kernel/bttv-driver.c:2197-2210 | rounding after clamping stays within the limits and aligned |
| BttvCrop.SizedWidthNearest | Jollen/ldd-training/kernel/bttv-driver.c:2197-2210 | the width is the request plus the bias rounded down to the unit as far as the limits allow; an admissible one is unchanged |
| BttvCrop.SizedHeightNearest | Jollen/ldd-training/kernel/bttv-driver.c:2197-2210 | the height is the admissible one nearest to the request, single fields having half the lines |
| BttvCrop.LinesExactly | Jollen/ldd-training/kernel/bttv-driver.c:2108-2119 | the vertical part of a size request leaves a good window exactly under the condition told beforehand |
| BttvCrop.AdjustedSizeExactly | Jollen/ldd-training/kernel/bttv-driver.c:2084-2219 | a window-moving size request leaves a good window exactly under that condition |
| BttvCrop.AdjustedSizeIsOk | Jollen/ldd-training/kernel/bttv-driver.c:2084-2219 | with vbi_end even and above the window, and 64 lines left for single fields, the window stays good and the image fits it |
| BttvCrop.AdjustedMovesLittle | Jollen/ldd-training/kernel/bttv-driver.c:2084-2122 | the window grows only if the image is larger, to the image's size, and moves only as far as it must |
| BttvCrop.ScalesAtMostSixteen | Jollen/ldd-training/kernel/bttv-driver.c:2095-2110 | images below the minimum get a window of 16 times their size |
| BttvCrop.TriedSizeExactly | Jollen/ldd-training/kernel/bttv-driver.c:2563-2575 | fitting the size to the window and then the window to the size leaves the window alone exactly unless a single-field image meets a window below 64 lines; good then exactly if 64 lines fit |
| BttvCrop.AdjustedTopInBounds | Jollen/ldd-training/kernel/bttv-driver.c:2084-2219 | whatever happens to the height, the top line stays in the bounds and below the VBI lines |
| Bttv.RunKeepsPartition | Jollen/ldd-training/kernel/bttv-driver.c:839-952 | in every run the device's mask is the disjoint union of the handles' masks and reading excludes streaming |
| Bttv.GrantedExactly | Jollen/ldd-training/kernel/bttv-driver.c:839-889 | a handle gets a resource exactly if it holds it, or no handle holds it (for reading and streaming: neither) and its lines are free; granted means held, refused changes nothing |
| Bttv.ClaimsExclude | Jollen/ldd-training/kernel/bttv-driver.c:859-878 | after a first video claim VBI is granted exactly down to that window's top, after a VBI claim video exactly from its end on |
| Bttv.VbiFormatIsClaimed | Jollen/ldd-training/kernel/bttv-driver.c:870-878 | the VBI lines claimed are those of the format the handle set last |
| Bttv.ReleasedMoves | Jollen/ldd-training/kernel/bttv-driver.c:3295-3321 | closing empties the handle's mask and takes exactly it from the device |
| Bttv.RunKeepsApartExactly | Jollen/ldd-training/kernel/bttv-driver.c:839-952 | from load, vbi_end <= crop_start at all times in a run exactly if in the state it meets every change to another geometry has video in use or vbi_end within the new bounds, and every release that ends video but not VBI has vbi_end within the bounds |
| Bttv.StepKeepsApartExactly | Jollen/ldd-training/kernel/bttv-driver.c:839-952 | the same for one request; every other request keeps the lines apart |
| Bttv.SetNormKeepsApartExactly | Jollen/ldd-training/kernel/bttv-driver.c:1287-1312 | a norm change keeps vbi_end <= crop_start exactly if the geometry is the same, video is in use or vbi_end lies within the new bounds |
| Bttv.FreeKeepsApartExactly | Jollen/ldd-training/kernel/bttv-driver.c:932-952 | a release keeps it exactly if it does not end video with vbi_end below the picture and VBI still held |
| Bttv.StopCanOverlap | Jollen/ldd-training/kernel/bttv-driver.c:932-952 | a run from load: low PAL video survives a change to NTSC, VBI lines are claimed below the NTSC picture, video ends, and the lines overlap |
| Bttv.AcquireKeepsCapturesExactly | Jollen/ldd-training/kernel/bttv-driver.c:859-878 | an acquire keeps every capturing handle's window below the VBI lines exactly if further captures and VBI requests meet what the driver tests only for the first capture |
| Bttv.SecondCaptureCanOverlap | Jollen/ldd-training/kernel/bttv-driver.c:859-870 | a run from load: a second handle's overlay captures lines that carry VBI |
| Bttv.RunKeepsLinesExactly | Jollen/ldd-training/kernel/bttv-driver.c:839-952 | from load, the lines are apart and crop_start is within the picture at all times in a run exactly if each norm change in it finds the geometry the same or the claimed lines within the new bounds |
| Bttv.StepKeepsLinesExactly | Jollen/ldd-training/kernel/bttv-driver.c:839-952 | the same for one request; what is free is fully disclaimed |
| Bttv.RunKeepsLines | Jollen/ldd-training/kernel/bttv-driver.c:839-952 | in particular every run at a fixed norm |
| Bttv.SetNormKeepsLinesExactly | Jollen/ldd-training/kernel/bttv-driver.c:1287-1312 | a norm change keeps the lines apart and within the picture exactly if the geometry is the same or the claimed lines fit the new bounds |
| Bttv.NormChangeCanOverlap | Jollen/ldd-training/kernel/bttv-driver.c:1306-1309 | VBI lines claimed under PAL overlap video after a change to NTSC |
| Bttv.AcquireThenFree | Jollen/ldd-training/kernel/bttv-driver.c:839-952 | a fresh acquire followed by its release restores the exact prior state |
| Bttv.RunKeepsWindowsExactly | Jollen/ldd-training/kernel/bttv-driver.c:2084-2236 | from load, both windows are good at all times in a run exactly if every request in it is harmless in the state it meets |
| Bttv.StepKeepsWindowsExactly | Jollen/ldd-training/kernel/bttv-driver.c:2084-2236 | a request leaves both windows good exactly if it is harmless: only window-moving sizes and heightening formats can be otherwise |
| Bttv.SetFormatExactly | Jollen/ldd-training/kernel/bttv-driver.c:2549-2596 | S_FMT for capture is accepted exactly if the window is below the VBI lines, changes a window exactly if it must heighten it, and gives an image that fits |
| Bttv.WindowCanLeaveBounds | Jollen/ldd-training/kernel/bttv-driver.c:2215-2218 | a run from load: VBI lines claimed down to 100, then an overlay window, and the PAL window ends below the picture |
| Bttv.SizedFitsWindow | Jollen/ldd-training/kernel/bttv-driver.c:2184-2236 | any other accepted size fits its window and starts below the VBI lines; its height is at least 32 exactly if the window allows it |
| Bttv.SetCropIsOk | Jollen/ldd-training/kernel/bttv-driver.c:3043-3103 | accepted S_CROP: good window at or below vbi_end, image size the nearest within its limits, initial size following a change |
| Bttv.SetCropExactly | Jollen/ldd-training/kernel/bttv-driver.c:3043-3064 | S_CROP is accepted exactly if no handle captures video and more than 32 lines are left |
| Bttv.StrictSizeExactly | Jollen/ldd-training/kernel/bttv-driver.c:2220-2228 | without leave to adjust, a size is accepted exactly if adjusting would not change it |
| Bttv.ResetsAndInherits | Jollen/ldd-training/kernel/bttv-driver.c:1287-1312 | another geometry resets both windows to the default one; a new handle starts with the size last set |
| BttvDriver.Board.CheckAllocBtres | Jollen/ldd-training/kernel/bttv-driver.c:839-889 | is the acquire step |
| BttvDriver.Board.FreeBtres | Jollen/ldd-training/kernel/bttv-driver.c:932-952 | is the release step, disclaiming lines of what is no longer held |
| BttvDriver.Board.Release | Jollen/ldd-training/kernel/bttv-driver.c:3295-3321 | is the close step |
| BttvDriver.Board.SetTvnorm | Jollen/ldd-training/kernel/bttv-driver.c:1287-1312 | is the norm change, refusing unknown norms |
| BttvDriver.Board.SCrop | Jollen/ldd-training/kernel/bttv-driver.c:3043-3103 | is the window request, busy while video runs or no room is left; the handle's and the initial image size follow the window |
| BttvDriver.Board.CropAdjust | Jollen/ldd-training/kernel/bttv-driver.c:2084-2122 | adjusts the window in use and nothing else |
| BttvDriver.Board.LimitScaledSize | Jollen/ldd-training/kernel/bttv-driver.c:2131-2236 | is the size request with its three outcomes |
| BttvDriver.Board.SFmtVidCap | Jollen/ldd-training/kernel/bttv-driver.c:2549-2596 | is the format request; the handle and btv->init take the fitted size |
| BttvDriver.LoadAndServe | Jollen/ldd-training/kernel/bttv-driver.c:839-3321 | in memory: load and any requests through any number of open files are a run; masks stay partitioned, lines apart or split and windows good under the conditions that decide it |
| BttvHw.SetPllFreq | Jollen/ldd-training/kernel/bttv-driver.c:967-987 | the three PLL bytes are the floor of the frequency quotient in 1/65536 units exactly if nothing overflows, which holds for fin / 4 up to 2^24, 12 * (fout / 4) below 2^32 and an integer part below 256 |
| BttvHw.PllExactly | Jollen/ldd-training/kernel/bttv-driver.c:975-982 | an overflow of any intermediate value always shows in the result |
| BttvHw.LongDivision | Jollen/ldd-training/kernel/bttv-driver.c:975-982 | two more base-256 digits of a quotient, each below 256 |
| BttvHw.Irq | Jollen/ldd-training/kernel/bttv-driver.c:4083-4180 | the loop stops at the first quiet pass, after at most six, whatever the device answers |
| BttvHw.QuietWithinSix | Jollen/ldd-training/kernel/bttv-driver.c:4156-4175 | some pass among the first seven is quiet for every status sequence |
| BttvHw.SixIsReached | Jollen/ldd-training/kernel/bttv-driver.c:4156-4175 | six passes do happen |
| BttvHw.SixthPassExactly | Jollen/ldd-training/kernel/bttv-driver.c:4156-4175 | a sixth pass comes exactly if the first five are active, the fifth with GPINT, and something else is active in the sixth; without GPINT the fifth is the last |
| Manage.CalculateChecksum | net/e1000-8.0.35/src/e1000_manage.c:39-53 | the result makes the bytes sum to zero |
| Manage.HostIfWrite | net/e1000-8.0.35/src/e1000_manage.c:275-341 | the bytes taken land at the offset, the last dword's tail is zeroed, nothing else changes, the sum grows by exactly their sum; bad parameters change nothing |
| Manage.WrittenAt | net/e1000-8.0.35/src/e1000_manage.c:275-341 | byte by byte: the data in place, the rest of the last dword zero, all else as before |
| Manage.TakenExactly | net/e1000-8.0.35/src/e1000_manage.c:297-312 | the bytes taken are the bytes given exactly if the offset is aligned or the buffer reaches the boundary; else the length wraps |
| Manage.Hw.WriteCmdHeader | net/e1000-8.0.35/src/e1000_manage.c:241-261 | the header goes to the start of RAM with a checksum over itself and the payload sum |
| Manage.Hw.WriteDhcpInfo | net/e1000-8.0.35/src/e1000_manage.c:195-232 | outcome and RAM contents of the DHCP write in every case |
| Manage.DhcpSumsToZero | net/e1000-8.0.35/src/e1000_manage.c:195-261 | header and payload bytes in RAM sum to zero modulo 256 and the payload is intact, for every payload |
| Manage.DhcpLayout | net/e1000-8.0.35/src/e1000_manage.c:195-261 | command 0x40 in byte 0, reserved bytes zero, length low byte first in bytes 6 and 7, then the payload, the last dword's tail zero, all else as before |
| Manage.CookieSurvivesExactly | net/e1000-8.0.35/src/e1000_manage.c:288-291 | the firmware cookie survives every payload of a length exactly if the command ends below it |
| Manage.Hw.EnableHostIf | net/e1000-8.0.35/src/e1000_manage.c:65-102 | succeeds exactly if the interface is up and one of ten polls finds it free |
| Manage.Hw.EnableTxPktFiltering | net/e1000-8.0.35/src/e1000_manage.c:129-185 | filtering is off exactly without management or interface, or with a valid signed cookie that does not ask for parsing |
| Mdio.Nic.ShiftOutMdiBits | net/e1000-8.0.35/src/e1000_82543.c:623-662 | the PHY samples exactly the bits, most significant first, except a first bit sent while MDC is high |
| Mdio.Nic.ShiftInMdiBits | net/e1000-8.0.35/src/e1000_82543.c:673-722 | returns the sixteen levels after edges two to seventeen; eighteen edges pass |
| Mdio.Nic.WritePhyReg | net/e1000-8.0.35/src/e1000_82543.c:536-573 | the addressed register takes the value, no other changes; exactly if the preamble was complete |
| Mdio.Nic.ReadPhyReg | net/e1000-8.0.35/src/e1000_82543.c:480-526 | returns the addressed register, or all ones if no PHY answers; nothing changes |
| Mdio.WriteFrameTaken | net/e1000-8.0.35/src/e1000_82543.c:564-569 | a PHY decoding section 22.2.4.5 of IEEE 802.3 takes the frame as exactly that write |
| Mdio.ReadHeaderTaken | net/e1000-8.0.35/src/e1000_82543.c:512-515 | and the header as exactly that read |
| Mdio.ReadingPresents | net/e1000-8.0.35/src/e1000_82543.c:705-719 | the levels a conforming PHY presents after those edges are the register's bits |
| Mdio.WritePacked | net/e1000-8.0.35/src/e1000_82543.c:564-567 | the packed word is the frame: start, opcode, addresses, turnaround, data |
| Mdio.ReadPacked | net/e1000-8.0.35/src/e1000_82543.c:512-513 | the packed word is the read header |
| Mdio.OrIsSum | net/e1000-8.0.35/src/e1000_82543.c:512-567 | the words sent, made by or-ing shifted fields, are the sums of the fields |
| Mdio.OrDisjoint | net/e1000-8.0.35/src/e1000_82543.c:512-567 | or-ing two fields that share no bit adds them |
| Mdio.Nic.Access | net/e1000-8.0.35/src/e1000_82543.c:480-573 | any sequence of accesses from any clock state behaves as a register file: refused above register 31, all ones without a PHY, and only an access on a cut preamble is missed |
| Eeprom.Adapter.SetEeprom | net/e1000-8.0.35/src/e1000_ethtool.c:568-626 | result and store after a set, in every case of failing accesses, those of the checksum update included |
| Eeprom.Adapter.GetEeprom | net/e1000-8.0.35/src/e1000_ethtool.c:523-566 | returns the bytes of the range in both branches, or an error |
| Eeprom.Adapter.SetThenGet | net/e1000-8.0.35/src/e1000_ethtool.c:523-626 | what was set is read back whatever the edge reads and the update did, except in an updated checksum word |
| Eeprom.NeighboursKeptExactly | net/e1000-8.0.35/src/e1000_ethtool.c:594-622 | after the whole call no byte outside the range and the checksum word has changed, whatever the buffer held, exactly if the reads of partly changed words other than the checksum word succeed |
| Eeprom.WriteKeepsNeighboursExactly | net/e1000-8.0.35/src/e1000_ethtool.c:594-618 | the write alone, before the checksum update, changes no byte outside the range, whatever the buffer held, exactly if the needed reads succeed |
| Eeprom.SetWordsAt | net/e1000-8.0.35/src/e1000_ethtool.c:608-618 | inside the range the new bytes, outside the old ones |
| Eeprom.LowByteFirst | net/e1000-8.0.35/src/e1000_ethtool.c:606-615 | a word is its two bytes, low byte first |
| Eeprom.SetKeepsSumExactly | net/e1000-8.0.35/src/e1000_ethtool.c:620-622 | the 64-word sum is valid afterwards for all data exactly if the range starts at or below word 0x3F and every access of the update succeeds, or starts above and the sum was valid before |
| Eeprom.Adapter.UpdateChecksum | net/e1000-8.0.35/src/e1000_nvm.c:958-981 | if all 64 accesses succeed word 0x3F completes the sum and nothing else changes; if one fails nothing changes and an error is returned |
| Eeprom.ChecksummedIsValid | net/e1000-8.0.35/src/e1000_defines.h:1176-1177 | the completed sum is 0xBABA |
| Eeprom.Adapter.EepromTest | net/e1000-8.0.35/src/e1000_ethtool.c:875-896 | 0 exactly if all reads succeed and the sum is right, 1 exactly if a read fails |
| MiscLoop.RunKeeps | ldt/misc_loop_drv.c:107-217 | in every interleaving bytes are conserved in order, and waiting bytes always have a tasklet or interrupt coming |
| MiscLoop.StreamIsPreserved | ldt/misc_loop_drv.c:107-217 | delivered bytes are the accepted ones in order, short by exactly the drops |
| MiscLoop.PacingExactly | ldt/misc_loop_drv.c:128-136 | a sequence of requests loses no accepted byte at any time, whatever happens until the next write, exactly if no write leaves more than 128 bytes outstanding |
| MiscLoop.NoLossExactly | ldt/misc_loop_drv.c:128-136 | from any state of the driver no accepted byte is lost before the next write, whatever is interleaved, exactly if what it holds fits into in_fifo |
| MiscLoop.AcceptedByteCanBeLost | ldt/misc_loop_drv.c:128-136 | a run from load in which an accepted byte is dropped |
| MiscLoop.PacedWritesAreSafe | ldt/misc_loop_drv.c:128-136 | under paced writes nothing is dropped and at most 128 bytes are outstanding |
| MiscLoop.RoundMovesOne | ldt/misc_loop_drv.c:107-145 | each round of interrupt and tasklet moves exactly one byte |
| MiscLoop.RestsUntilScheduled | ldt/misc_loop_drv.c:107-145 | an ended tasklet moves nothing until it is scheduled again |
| MiscLoop.Drains | ldt/misc_loop_drv.c:107-145 | with the tasklet idle, as many rounds as bytes waiting empty out_fifo, dropping exactly the excess |
| MiscLoop.DrainsFromAnywhere | ldt/misc_loop_drv.c:107-145 | the same from every state, the tasklet first run to its end: port and out_fifo are moved in order, dropping exactly what does not fit |
| MiscLoop.Driver.TaskletFunc | ldt/misc_loop_drv.c:107-137 | is the tasklet's steps run to the end |
| MiscLoop.Driver.Write | ldt/misc_loop_drv.c:191-217 | accepts what fits and schedules the tasklet, or answers EAGAIN; a writer that waited and finds no room copies nothing and still schedules |
| MiscLoop.Driver.Read | ldt/misc_loop_drv.c:163-189 | hands over the oldest bytes, or answers EAGAIN; a reader that waited may get none |
| MiscLoop.Driver.Isr | ldt/misc_loop_drv.c:139-145 | schedules the tasklet |
| MiscLoop.Driver.Calls | ldt/misc_loop_drv.c:107-217 | in memory: any sequence of calls is a run of the steps, and keeps their invariant and the stream |
| Tsc2007.RunKeeps | Jollen/ldd-training/kernel/tsc2007.c:200-249 | in every run exactly one of interrupt and timer is live, the trace never breaks the touch protocol and agrees with pendown |
| Tsc2007.TouchesAlternate | Jollen/ldd-training/kernel/tsc2007.c:161-215 | key reports of an unbroken trace are 1, 0, 1, 0, ... and their parity is the pen state |
| Tsc2007.RunInRange | Jollen/ldd-training/kernel/tsc2007.c:90-180 | without bus errors every report of every run is within 0..4095 |
| Tsc2007.PointInRangeExactly | Jollen/ldd-training/kernel/tsc2007.c:90-110 | a reported point is in range exactly if its X and Y transfers succeeded |
| Tsc2007.StoredInRangeExactly | Jollen/ldd-training/kernel/tsc2007.c:90-110 | a stored sample fits twelve bits exactly if the transfer succeeded |
| Tsc2007.SampleRoundTrip | Jollen/ldd-training/kernel/tsc2007.c:101-105 | a 12-bit sample in the controller's wire format is stored as that sample, whatever the dummy bits |
| Tsc2007.ReportsWhatWasMeasured | Jollen/ldd-training/kernel/tsc2007.c:112-198 | end to end: an expiry with the pen down reports the X and Y the controller sent and the pressure of equation 1, or nothing |
| Tsc2007.ResistanceExactly | Jollen/ldd-training/kernel/tsc2007.c:127-136 | the 32-bit pressure formula is exact for all plausible samples exactly up to 256 ohms |
| Tsc2007.PollingLastsExactly | Jollen/ldd-training/kernel/tsc2007.c:112-223 | over any run of pen levels and samples, polling lasts exactly until an expiry finds the pen up after a valid sample; a pen lifted before that is polled on |
| Tsc2007.PollingStartsExactly | Jollen/ldd-training/kernel/tsc2007.c:230-249 | from rest nothing happens exactly as long as no interrupt finds the pen down |
| Tsc2007.Touchscreen.ReadValues | Jollen/ldd-training/kernel/tsc2007.c:182-198 | stores the four transfers in their fields |
| Tsc2007.Touchscreen.SendEvent | Jollen/ldd-training/kernel/tsc2007.c:112-180 | is the reporting step and always rearms the timer |
| Tsc2007.Touchscreen.OnTimer | Jollen/ldd-training/kernel/tsc2007.c:200-228 | is the timer step |
| Tsc2007.Touchscreen.OnIrq | Jollen/ldd-training/kernel/tsc2007.c:230-249 | is the interrupt step |
| Tsc2007.Touchscreen.OnEvents | Jollen/ldd-training/kernel/tsc2007.c:112-249 | in memory: any sequence of interrupts and expiries is a run, the trace obeys the touch protocol and its key reports alternate |
| Cdata.File.FlushLcd | Jollen/ldd-training/cdata.c:72-100 | moves the buffered bytes to the screen as direct writing would have |
| Cdata.File.Write | Jollen/ldd-training/cdata.c:117-186 | appends to the stream whenever the flushes come; the index never exceeds the buffer |
| Cdata.File.Close | Jollen/ldd-training/cdata.c:188-200 | leaves the whole stream on the screen |
| Cdata.Session | Jollen/ldd-training/cdata.c:38-200 | open, writes and close equal unbuffered streaming; offset is the total modulo the screen size |
| Cdata.ShowsLastScreenful | Jollen/ldd-training/cdata.c:89-93 | the screen shows the last screenful of the stream, each byte at its position modulo the size |
| Cdata.KeepsTheRest | Jollen/ldd-training/cdata.c:89-93 | places the stream has not reached are untouched |
| Sbull.RunKeeps | 015_sbull/sbull.c:208-276 | in every run a device opened more often than closed has no armed timer and no media change, and the sanity warning never comes |
| Sbull.UsersAreCounted | 015_sbull/sbull.c:208-235 | the user count is opens minus closes, told from the events alone |
| Sbull.ExpiryExactly | 015_sbull/sbull.c:266-276 | an expiry warns exactly if somebody has the device open and takes the medium away exactly if not |
| Sbull.SessionStarts | 015_sbull/sbull.c:208-276 | a session starts zeroed exactly if the timer expired since the last close, else on the previous contents |
| Sbull.ContentsChangeOnlyByWrites | 015_sbull/sbull.c:84-99 | while open each byte is what the last in-range write left there |
| Sbull.Disk.Transfer | 015_sbull/sbull.c:84-99 | copies in or out of range exactly, ignores requests beyond the end |
| Sbull.AcceptsExactly | 015_sbull/sbull.c:84-93 | the 64-bit range test is right for every device exactly if the transfer's end does not wrap around to below 2^31 |
| Sbull.Disk.OnOpen | 015_sbull/sbull.c:208-221 | is the open step |
| Sbull.Disk.OnRelease | 015_sbull/sbull.c:223-235 | is the release step |
| Sbull.Disk.Revalidate | 015_sbull/sbull.c:251-260 | blanks the medium after a media change |
| Sbull.Disk.Invalidate | 015_sbull/sbull.c:266-276 | is the timer step |
| Sbull.Disk.OnEvents | 015_sbull/sbull.c:84-276 | in memory: any sequence of opens, closes, transfers and expiries is a run and keeps its invariant |

## Assumptions

- Every driver entry point is one atomic step (misc_loop's tasklet: one loop iteration). Locks, delays
  and faults of user copies are not modelled.
- snull: frames are at most ETH_DATA_LEN bytes, devices are opened once, lockup simulation is off. The
  kernel transmits only on a running queue and polls only a scheduled device. `snull_poll` reads
  `priv->dev`, which `snull_init` never sets, and `snull_init` zeroes priv after it has registered the
  NAPI context in it (snull.c:675-678); the device and the NAPI context are taken as given. Statistics
  are unbounded.
  `ip_fast_csum` is the checksum of section 3.1 of RFC 791 over the header that IHL announces, cut off
  at the end of the frame; implementations promise that only for an IHL of 5 or more.
- bttv: RESOURCE_* are distinct single bits, MIN_VDELAY is 2, MAX_HDELAY is at least 68 and MAX_HACTIVE
  at least 48; the private header that defines them is not part of this model. Only the handler writes
  the interrupt mask while it runs.
- e1000: PHY addresses are below 32, the PHY is idle between accesses and MDC is low while nobody drives it; ethtool ranges lie within the
  NVM, as the ethtool core checks. A failing NVM write is one that could not start.
- sbull: the device has its memory, and `check_disk_change` revalidates when a media change is reported.
- cdata: one writer; the flush timer is pending only while the writer waits for it.

## Where comments and code differ

- e1000_manage.c:273 says that the sum is put into `*buffer`; the code adds it to `*sum`, and so does the model.
- e1000_82543.c:700-704 counts the last address clock as the first turnaround clock. With a PHY that
  drives MDIO after rising edges, the code's clocks are the two turnaround clocks and sixteen data
  clocks of the standard, each data bit read after the edge before the one a station would sample it on.
- bttv-driver.c:2081-2083 promises that the window is adjusted within the bounds; line 2217 can move it out.
- bttv-driver.c:867-868 says that a line is never captured as video and VBI data. The driver claims lines for
  the first capture only: a second handle with a higher window is not tested
  (`Bttv.SecondCaptureCanOverlap`, `Bttv.AcquireKeepsCapturesExactly`).
- bttv-driver.c:2170-2172 says that the window follows a larger image, as the V4L2 specification asks. For
  capture formats it does not: lines 2563-2569 have cut the size to the window before (`Bttv.SetFormatExactly`).

## Left out

- snull: transmit timeout, lockup simulation, reopening, configuration and header construction.
- SnullFrames.RewrittenHeaderVerifies: says nothing of frames whose IHL announces a header shorter than its own checksum field or longer than the frame, because the source then sums other bytes.
- BttvHw.SetPllFreq: the register writes and the PLL_X bit are not modelled.
- Bttv: buffer activation, DMA programs, register writes, audio, tuner and controls; how a VBI format's end line is chosen.
- Manage.HostIfWrite: needs the memory behind a buffer whose length wraps, since the source reads it.
- Eeprom: the bus protocols below e1000_read_nvm and e1000_write_nvm are their contracts; buffer allocation succeeds.
- MiscLoop: poll(), the waiting itself and its interruption by signals, module load.
- Tsc2007: probing, the platform's clear_penirq hook, and that disable_irq is called from the handler it waits for.
- Sbull.Disk.Transfer: says nothing of a transfer whose end wraps around to a place on the device, because the source then copies outside the device's memory.
- Sbull: the full-request and make_request modes, ioctl, and the 16-bit width of the user counter.
- e1000 link setup, DSP tuning, LEDs and register self-tests, module and device registration, the tutorial character devices, tracing and board files: no property beyond call order.
