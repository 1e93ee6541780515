# Verified model of the R-Car M3 board support code

The project models six pieces of the board support package and proves what they do for
every input, every run or every address.

- **ARM section table** (`Word32`, `ArmTlb`, `ArmTlbMap`). `arm_setup_tlb` walks a
  sentinel-terminated list of memory regions and fills a 4096-slot first-level translation
  table in place. The method is proved against a cursor specification over unbounded
  integers; the table is then read back with a first-level walk (short-descriptor sections,
  section B3.5.1 of ARM DDI 0406C), and the statements are about every 32-bit virtual
  address. Words are 32 bits wide (`unsigned` and `unsigned long`), bitwise operators are
  defined bit by bit.
- **I2C command tool** (`CText`, `HexList`, `I2cOptions`, `I2cBus`, `I2cControl`,
  `I2cTraffic`). The destructive scan of `:`-separated hex lists, the option loop, the
  bounded retries and the write and read transactions. The driver is an arbitrary stream of
  responses and every call is recorded in a trace.
- **iPaq GPIO banks** (`IpaqGpio`). The shadowed set, clear and get routines, as single
  routines and as machine steps of any number of clients on one CPU, and the packed input
  words.
- **Rear-view camera** (`CameraEvents`, `CameraHistory`, `CameraOptions`). The PPS event
  loop over camera commands and window groups, and the scanner for size and position options.
- **Bound-library resolver** (`DlResolver`) and **display mode list** (`WfdModes`). Walks over
  terminated tables, proved against first-match and prefix specifications.

## What the proofs found

- A region table gives a flat map exactly when no region that still writes a slot starts below
  the cursor its predecessors left (`ArmTlbMap.FlatMapIff`); `ArmTlbMap.OverlapExample` is a
  table that fails.
- The page count of a region comes from `len` alone, so an unaligned region may leave its last
  bytes outside the sections it claims. `ArmTlbMap.RegionBytesCovered` gives the exact
  condition, `ArmTlbMap.CarriedTailUncached` what it does to the finished map, and
  `ArmTlbMap.UnalignedExample` a region that fails.
- The two-number scanner of the camera options takes a leading minus sign for the separator.
  It inverts a printer if and only if the first number is not negative or the second is its
  magnitude (`CameraOptions.ScanInvertsPrint`); `-5,10` reads as -5 and 5
  (`CameraOptions.SignedExample`).
- Without a separator that scanner stops at the terminator and reads the second number from the
  text that follows it in memory; the result is the argument's own if and only if it has a
  separator (`CameraOptions.OwnResultIff`).
- An empty list argument of the I2C tool reads as one zero byte, and lists keep 256 bytes at
  most (`HexList.HexListRoundTrip`). A write of more than 16 bytes is accepted by the parser
  but never reaches the bus (`I2cTraffic.CompletedIff`).
- The I2C usage text (`R-CarM3/src/utils/i2c-control/Usemsg`) says that a data byte serves as the
  sub-address in read mode. The code does not use the data list in read mode; the model follows
  the code.
- A window group name is remembered even when joining it fails, so a failed join is not
  repeated until another name has been published (`CameraHistory.JoinsAreChanges`).

## Model

| member | source | states |
|---|---|---|
| ArmTlb.BaseMask | R-CarM3/install/usr/include/arm/arm_tlb.h:47 | masking a base with 0xFFF00000 rounds it down to its megabyte |
| ArmTlb.CommonBits | R-CarM3/install/usr/include/arm/arm_tlb.h:39-41 | the three common attribute groups do not overlap: their or is their sum, 0xDE2 |
| ArmTlb.HoleExpression | R-CarM3/install/usr/include/arm/arm_tlb.h:69 | the part-by-part or of the hole fill is the region form without attributes |
| ArmTlb.CacheBitsOnly | R-CarM3/install/usr/include/arm/arm_tlb.h:42-45 | attributes made of C_ENA and B_ENA only keep a section a section, and their C and B fields are what they say |
| ArmTlb.RegionDecode | R-CarM3/install/usr/include/arm/arm_tlb.h:30-38 | for attributes that keep a section a section, a descriptor decodes to its own section, domain 15, access 3, and the C and B bits of its attributes |
| ArmTlb.GuardIsCount | R-CarM3/install/usr/include/arm/arm_tlb.h:72 | the three-part guard on the wrapping 32-bit base is equivalent to a bound on the number of rounds, and base has not wrapped below it |
| ArmTlb.WrapNeverDecides | R-CarM3/install/usr/include/arm/arm_tlb.h:72-76 | the loop on the wrapping base and the same loop over unbounded integers make the same number of rounds, min(ceil(len/1M), 4096 - begin) in all |
| ArmTlb.FillHoles | R-CarM3/install/usr/include/arm/arm_tlb.h:68-70 | the hole loop writes exactly the slots of its range, once each and in order |
| ArmTlb.FillRegion | R-CarM3/install/usr/include/arm/arm_tlb.h:72-76 | the fixed-width region loop writes min(ceil(len/1M), 4096 - begin) slots with consecutive unwrapped bases and nothing else |
| ArmTlb.AddRegion | R-CarM3/install/usr/include/arm/arm_tlb.h:64-78 | one round of the table walk extends a correct prefix of the table by one region |
| ArmTlb.ArmSetupTlb | R-CarM3/install/usr/include/arm/arm_tlb.h:59-84 | the builder takes the regions before the first start of 0xFFFFFFFF, or none for an absent table, terminates with exactly their specified table, and writes each of the 4096 slots once in increasing order |
| ArmTlbMap.SectionAtOrBelow | R-CarM3/install/usr/include/arm/arm_tlb.h:64-83 | for any table every slot maps at or below its own section |
| ArmTlbMap.SlotStable | R-CarM3/install/usr/include/arm/arm_tlb.h:64-78 | no later region rewrites a slot |
| ArmTlbMap.WrittenSlot | R-CarM3/install/usr/include/arm/arm_tlb.h:72-76 | for any table the slots a region writes carry its attributes and consecutive sections from its first one on |
| ArmTlbMap.SkippedSlot | R-CarM3/install/usr/include/arm/arm_tlb.h:67-70 | for any table the slots skipped below a region are holes |
| ArmTlbMap.TailSlot | R-CarM3/install/usr/include/arm/arm_tlb.h:80-83 | for any table the slots after the last region are holes |
| ArmTlbMap.EverySlot | R-CarM3/install/usr/include/arm/arm_tlb.h:64-78 | every slot below the final cursor belongs to the round of some region |
| ArmTlbMap.WalkSlot | R-CarM3/install/usr/include/arm/arm_tlb.h:30-38 | walking any address of a finished table yields the section and attributes of its slot |
| ArmTlbMap.EveryAddressIsMapped | R-CarM3/install/usr/include/arm/arm_tlb.h:55-58 | every 32-bit address is mapped, with domain 15 and read/write access, at or below itself and with its page offset |
| ArmTlbMap.FlatMapIff | R-CarM3/install/usr/include/arm/arm_tlb.h:59-84 | the map of all addresses is the identity if and only if no region that writes a slot starts below the cursor left by its predecessors |
| ArmTlbMap.MisplacedAddress | R-CarM3/install/usr/include/arm/arm_tlb.h:65-76 | a region behind the cursor sends the address at the cursor to the region's first section |
| ArmTlbMap.SortedIsFlat | R-CarM3/install/usr/include/arm/arm_tlb.h:59-84 | sorted tables give a flat map, unaligned starts and regions past 4G included |
| ArmTlbMap.SortedCovered | R-CarM3/install/usr/include/arm/arm_tlb.h:64-78 | under a sorted table a slot covered by a region carries that region's attributes and its own section |
| ArmTlbMap.SortedUncovered | R-CarM3/install/usr/include/arm/arm_tlb.h:67-83 | under a sorted table a slot no region covers is its own section without attributes |
| ArmTlbMap.SortedUnique | R-CarM3/install/usr/include/arm/arm_tlb.h:64-78 | in a sorted table at most one region covers a slot |
| ArmTlbMap.CoveredAddress | R-CarM3/install/usr/include/arm/arm_tlb.h:72-76 | every address in a covered section maps to itself with the region's cacheability |
| ArmTlbMap.UncoveredAddress | R-CarM3/install/usr/include/arm/arm_tlb.h:67-83 | every other address maps to itself uncached and unbuffered |
| ArmTlbMap.EmptyTable | R-CarM3/install/usr/include/arm/arm_tlb.h:80-83 | without regions the word of section i is i * 0x100000 + 0xDE2 |
| ArmTlbMap.CursorGrows | R-CarM3/install/usr/include/arm/arm_tlb.h:67-72 | one more region moves the cursor to min(max(cursor, start / 1M) + ceil(len / 1M), 4096) |
| ArmTlbMap.TableGrows | R-CarM3/install/usr/include/arm/arm_tlb.h:64-83 | one more region leaves the words below the cursor alone, then come hole words up to its first section, then the or of consecutive section bases, its attributes and 0xDE2 up to the new cursor, then hole words |
| ArmTlbMap.SortedWords | R-CarM3/install/usr/include/arm/arm_tlb.h:59-84 | for sorted regions with C and B attributes the word of section i is i * 0x100000 + 0xDE2 plus the attributes of the region covering i, if there is one |
| ArmTlbMap.WalkOfWord | R-CarM3/install/usr/include/arm/arm_tlb.h:30-38 | such a word maps its megabyte to its section with domain 15 and access 3, cacheable by bit 3 and bufferable by bit 2 |
| ArmTlbMap.RegionBytesCovered | R-CarM3/install/usr/include/arm/arm_tlb.h:72 | for every region all its addresses lie in the sections it claims if and only if its start and length offsets do not carry into another section below 4G |
| ArmTlbMap.CarriedTailUncached | R-CarM3/install/usr/include/arm/arm_tlb.h:72-83 | under a sorted table the last byte of a region that carries is mapped uncached and unbuffered unless the next region starts in just that section |
| ArmTlbMap.OverlapExample | R-CarM3/install/usr/include/arm/arm_tlb.h:72-76 | a concrete overlapping table whose map is not flat: address 0x200000 maps to 0x100000 |
| ArmTlbMap.UnalignedExample | R-CarM3/install/usr/include/arm/arm_tlb.h:72 | a concrete unaligned region whose second half is left uncached |
| HexList.ReadToken | R-CarM3/src/utils/i2c-control/i2c-control.c:111-113 | one destructive round cuts the next token at the first separator and reads exactly it |
| HexList.ScanHexList | R-CarM3/src/utils/i2c-control/i2c-control.c:103-118 | the in-place scan stores the denoted bytes and count, leaves the rest of the list alone, and overwrites separators up to where it stops; SpelledBufferScan, HexListRoundTrip and SeparatorsDestroyed say what that comes to |
| HexList.SplitJoin | R-CarM3/src/utils/i2c-control/i2c-control.c:109-117 | splitting at ':' undoes joining with ':', for all token lists |
| HexList.JoinSplit | R-CarM3/src/utils/i2c-control/i2c-control.c:109-117 | joining undoes splitting: every text is the join of its tokens, none of which holds a separator |
| HexList.PaddedByteRead | R-CarM3/src/utils/i2c-control/i2c-control.c:113 | any two hexadecimal digits, of either case, are read as 16 times the first plus the second |
| HexList.TokenReduced | R-CarM3/src/utils/i2c-control/i2c-control.c:113 | a number in hexadecimal of either case, with or without 0x, is reduced to a byte |
| HexList.ListLength | R-CarM3/src/utils/i2c-control/i2c-control.c:103-118 | a list has one byte more than separators, and 256 at most |
| HexList.SpelledListRead | R-CarM3/src/utils/i2c-control/i2c-control.c:103-118 | a text that spells a byte list denotes its first 256 bytes |
| HexList.SpelledBufferScan | R-CarM3/src/utils/i2c-control/i2c-control.c:103-118 | scanning a buffer that holds any spelling of a list leaves its first 256 bytes and their count, and the rest of the list array alone |
| HexList.PrintedBuffer | R-CarM3/src/utils/i2c-control/i2c-control.c:103-107 | a buffer that holds a printed list and its terminator holds that text as its string |
| HexList.HexListRoundTrip | R-CarM3/src/utils/i2c-control/i2c-control.c:103-118 | printing a list into a buffer, in lower-case or upper-case digits, and scanning it in place restores bytes and count exactly for 1 to 256 bytes; longer lists keep the first 256 and the empty text gives one zero byte |
| HexList.SeparatorsDestroyed | R-CarM3/src/utils/i2c-control/i2c-control.c:108-117 | scanning any text overwrites exactly its first 256 separators and no other character of the buffer |
| CText.StrToUlReadsHexadecimal | R-CarM3/src/utils/i2c-control/i2c-control.c:89 | any number is read back from its hexadecimal digits of either case, with or without 0x, saturating at the width of unsigned long and negated modulo it after a minus sign |
| CText.HexByteRead | R-CarM3/src/utils/i2c-control/i2c-control.c:113 | the hexadecimal reader undoes printing a byte with digits of either case |
| CText.Characters | R-CarM3/src/utils/i2c-control/i2c-control.c:89 | which characters are hexadecimal digits, decimal digits and blanks, and that both cases of the 16 digits have their value |
| CText.HexPositional | R-CarM3/src/utils/i2c-control/i2c-control.c:89 | the reader is positional to base 16 and stops at the first character that is not a digit |
| CText.DecPositional | R-CarM3/src/utils/i2c-control/i2c-control.c:95 | the same to base 10 |
| CText.StrToUlForms | R-CarM3/src/utils/i2c-control/i2c-control.c:89 | 0x, 0X and a plus sign change nothing, a minus sign negates modulo the width of unsigned long, and too large numbers saturate |
| CText.StrToUlBlanks | R-CarM3/src/utils/i2c-control/i2c-control.c:89 | leading blanks change nothing and text that starts with no digit, sign or blank reads as zero |
| CText.AtoiForms | R-CarM3/src/utils/i2c-control/i2c-control.c:95 | the decimal reader skips leading blanks and obeys one sign |
| CText.PrintIntRead | R-CarM3/src/utils/camera_ctrl/rearview-camera.c:353 | the decimal reader undoes printing an integer in front of any non-digit |
| I2cOptions.LatestSnoc | R-CarM3/src/utils/i2c-control/i2c-control.c:75-170 | one more argument changes the last-value summary of a command line in its own option only |
| I2cOptions.I2cControlInfo.SetDefaults | R-CarM3/src/utils/i2c-control/i2c-control.c:63-72 | the record starts with no device, slave 0, mode write, speed 50000, no data, no sub-address, count 1 and no view, which is what an empty command line means |
| I2cOptions.I2cControlInfo.ApplyValue | R-CarM3/src/utils/i2c-control/i2c-control.c:78-167 | the switch overwrites the one field its option names and reports an out-of-range value |
| I2cOptions.I2cControlInfo.ParseCommandline | R-CarM3/src/utils/i2c-control/i2c-control.c:56-173 | the loop returns -1 exactly when some argument is out of range; otherwise every field is the last supplied value or its default |
| I2cOptions.LastIsAWord | R-CarM3/src/utils/i2c-control/i2c-control.c:75-170 | the last value of an option is that of an argument after which no other gives it a value |
| I2cOptions.LastValueDecides | R-CarM3/src/utils/i2c-control/i2c-control.c:78-167 | the last value given for an option decides its own field: text, hexadecimal byte, decimal count, speed clamped to 50000 to 400000, or byte list |
| I2cOptions.NoValueKeepsDefault | R-CarM3/src/utils/i2c-control/i2c-control.c:63-72 | an option without a value keeps its default |
| I2cOptions.ViewAndRejection | R-CarM3/src/utils/i2c-control/i2c-control.c:96-162 | the view flag is set if and only if it is given; a command line is rejected if and only if some count exceeds 256 or some sub-address two bytes |
| I2cOptions.AcceptedRanges | R-CarM3/src/utils/i2c-control/i2c-control.c:96-162 | accepted settings have a speed of 50000 to 400000, at most 256 data bytes, at most 2 sub-address bytes and a count of at most 256 |
| I2cOptions.SlaveIsRead | R-CarM3/src/utils/i2c-control/i2c-control.c:86-91 | a slave address in hexadecimal of either case, with or without 0x, reaches the record reduced to a byte |
| I2cBus.CallsStopAtFirstSuccess | R-CarM3/src/utils/i2c-control/i2c-control.c:198-204 | the retry loop stops at the first success, or after its budget, and succeeds if and only if a response within the budget does |
| I2cBus.Bus.Write | R-CarM3/src/utils/i2c-control/i2c-control.c:175-207 | a send of over 16 bytes makes no call; any other makes the retried calls with exactly the given bytes and returns the last response |
| I2cBus.Bus.Read | R-CarM3/src/utils/i2c-control/i2c-control.c:209-239 | a receive makes the retried calls, returns the last response and copies what the last call delivered |
| I2cControl.WriteMode | R-CarM3/src/utils/i2c-control/i2c-control.c:300-345 | the write branch has the specified outcome and bus events |
| I2cControl.ReadMode | R-CarM3/src/utils/i2c-control/i2c-control.c:346-380 | the read branch has the specified outcome and bus events, and a completed one leaves the received bytes in the data buffer |
| I2cControl.RunParsed | R-CarM3/src/utils/i2c-control/i2c-control.c:253-383 | the run after parsing has the specified outcome and bus events, which RunStartsWith and the trace lemmas below tell in full; a completed read leaves the received bytes in the data buffer |
| I2cTraffic.RunStartsWith | R-CarM3/src/utils/i2c-control/i2c-control.c:260-298 | no device, slave address 0 or an unknown mode ends in status 0 and a failed open in -1, both without touching the bus; any other run sets the speed first and ends in -1 unless it completes |
| I2cTraffic.RetryTrace | R-CarM3/src/utils/i2c-control/i2c-control.c:198-236 | a retried message leaves 1 to 11 identical events, failing up to the last, which succeeds if and only if one of 11 responses does |
| I2cTraffic.WriteTraffic | R-CarM3/src/utils/i2c-control/i2c-control.c:300-345 | after setting the speed a write run only ever sends sub-address and data, with stop |
| I2cTraffic.ReadTraffic | R-CarM3/src/utils/i2c-control/i2c-control.c:346-380 | a read run sends only the sub-address without stop, never sends after a receive, and receives only after an acknowledged sub-address when one is given |
| I2cTraffic.ReceivesIff | R-CarM3/src/utils/i2c-control/i2c-control.c:346-373 | a run attempts a receive if and only if it starts, sets the speed, is in read mode, gets through the address phase and has a non-zero count |
| I2cTraffic.WriteTrace | R-CarM3/src/utils/i2c-control/i2c-control.c:300-345 | the whole traffic of a write run: nothing after the speed without data or above 16 bytes, else one retried stopped send of sub-address and data |
| I2cTraffic.PlainReadTrace | R-CarM3/src/utils/i2c-control/i2c-control.c:356-380 | the whole traffic of a read run without sub-address: one retried receive, or nothing for a count of zero |
| I2cTraffic.AddressedReadTrace | R-CarM3/src/utils/i2c-control/i2c-control.c:346-380 | the whole traffic of a read run with sub-address: its retried send whatever the count is, then after a success the retried receive unless the count is zero |
| I2cTraffic.RunFollowsResponses | R-CarM3/src/utils/i2c-control/i2c-control.c:280-383 | a run makes at most 23 driver calls, which get the driver's responses in order, none skipped or reused |
| I2cTraffic.CompletedMeansTransferred | R-CarM3/src/utils/i2c-control/i2c-control.c:300-383 | a run that reaches the final exit has exactly one successful data transfer and it is the last bus event |
| I2cTraffic.CompletedIff | R-CarM3/src/utils/i2c-control/i2c-control.c:260-383 | exactly which settings and responses let a run complete, told without the retry loops |
| I2cTraffic.WriteCompletesIff | R-CarM3/src/utils/i2c-control/i2c-control.c:260-345 | a write run completes if and only if device, slave address and open are there, the speed call succeeds, there is data, it fits into 16 bytes with the sub-address, and one of 11 sends succeeds |
| I2cTraffic.ReadCompletesIff | R-CarM3/src/utils/i2c-control/i2c-control.c:260-380 | the same for read runs: a non-zero count and a success among 11 receives, after the first success among 11 sends of a sub-address of up to 16 bytes if there is one |
| I2cTraffic.Control | R-CarM3/src/utils/i2c-control/i2c-control.c:241-384 | the whole tool: rejected command lines cause no traffic, accepted ones run with the settings they denote |
| I2cTraffic.PrintedDataIsSent | R-CarM3/src/utils/i2c-control/i2c-control.c:103-118 | up to 16 bytes given in print, in digits of either case, to the data option are what a completed write puts on the wire |
| IpaqGpio.HwiGpio.SetBits | R-CarM3/install/usr/include/arm/ipaq.h:524-531 | set gives shadow and register the effect that the history theorems and the step machine use |
| IpaqGpio.HwiGpio.ClrBits | R-CarM3/install/usr/include/arm/ipaq.h:536-543 | clear gives shadow and register the effect that the history theorems and the step machine use |
| IpaqGpio.HwiGpio.Perform | R-CarM3/install/usr/include/arm/ipaq.h:524-552 | any sequence of calls leaves shadow, register and the value get reads at the fold of the operations on that bank, so that FoldNamed and FoldUnnamed give its bits |
| IpaqGpio.RoutineRuns | R-CarM3/install/usr/include/arm/ipaq.h:524-543 | on the step machine the six steps of an undisturbed call can all be taken and have exactly the effect of the routine |
| IpaqGpio.FoldNamed | R-CarM3/install/usr/include/arm/ipaq.h:524-543 | after any sequence of operations a bit is what the last operation naming it made it |
| IpaqGpio.FoldUnnamed | R-CarM3/install/usr/include/arm/ipaq.h:524-543 | a bit no operation names keeps its initial value |
| IpaqGpio.InvStep | R-CarM3/install/usr/include/arm/ipaq.h:524-590 | every machine step and context switch keeps the relation of shadow, register and finished operations |
| IpaqGpio.RunInv | R-CarM3/install/usr/include/arm/ipaq.h:524-590 | the relation holds in every state of every run |
| IpaqGpio.NoLostUpdate | R-CarM3/install/usr/include/arm/ipaq.h:524-590 | whenever interrupts are enabled shadow and register agree and each bit is what the last operation naming it made it, or its initial value |
| IpaqGpio.MutualExclusion | R-CarM3/install/usr/include/arm/ipaq.h:527-530 | a client is inside a routine exactly when it is running with interrupts disabled |
| IpaqGpio.GetIsCommitted | R-CarM3/install/usr/include/arm/ipaq.h:548-552 | a get returns the register's content and never a half-done operation |
| IpaqGpio.EveryOperationLogged | R-CarM3/install/usr/include/arm/ipaq.h:524-590 | no operation is dropped, duplicated or reordered |
| IpaqGpio.EnabledSteps | R-CarM3/install/usr/include/arm/ipaq.h:524-590 | in any run with interrupts enabled every client can get the CPU, any operation can begin, and a get reads the register's content and nothing else |
| IpaqGpio.DisabledStep | R-CarM3/install/usr/include/arm/ipaq.h:524-543 | in any run with interrupts disabled exactly one step is possible, the next one of the running routine |
| IpaqGpio.PackedInputBijection | R-CarM3/install/usr/include/arm/ipaq.h:455-467 | unpacking a packed word masks each field to its width, and packing the fields of any word gives it back |
| IpaqGpio.PackedPlaces | R-CarM3/install/usr/include/arm/ipaq.h:459-467 | fields within their widths pack to x + y * 0x800 + buttons * 0x400000 |
| CameraEvents.PpsThread.OnCommand | R-CarM3/src/utils/camera_ctrl/rearview-camera.c:131-149 | the pause text hides the window and clears pps_cw; any other text shows it, sets pps_cw and the z-order -1 |
| CameraEvents.PpsThread.OnGroup | R-CarM3/src/utils/camera_ctrl/rearview-camera.c:178-194 | a name other than the last one is remembered and joined, and only a successful join clears pps_cw and sets pps_wg |
| CameraEvents.PpsThread.OneRound | R-CarM3/src/utils/camera_ctrl/rearview-camera.c:105-201 | one round, with the second select limited to what the first one left, performs its events and stops where the loop is left |
| CameraEvents.PpsThread.ThreadPps | R-CarM3/src/utils/camera_ctrl/rearview-camera.c:78-205 | the loop over any number of rounds reaches the state that their events lead to; rounds whose messages have no attribute of the camera's name leave the state alone |
| CameraEvents.PublishedAre | R-CarM3/src/utils/camera_ctrl/rearview-camera.c:127-153 | the events of a message without parse error are the values of exactly its attributes named rearview_camera, in order |
| CameraEvents.NothingPublished | R-CarM3/src/utils/camera_ctrl/rearview-camera.c:129 | a message without an attribute of that name is no event |
| CameraEvents.ErrorCuts | R-CarM3/src/utils/camera_ctrl/rearview-camera.c:151-152 | nothing behind a parse error is an event, everything before it is |
| CameraEvents.RoundEvents | R-CarM3/src/utils/camera_ctrl/rearview-camera.c:105-201 | which selects and reads of a round end the loop and which messages count; the group message needs its descriptor ready in both selects |
| CameraHistory.JoinsAreChanges | R-CarM3/src/utils/camera_ctrl/rearview-camera.c:173-199 | the join requests are the published names without consecutive repeats, starting from the empty name |
| CameraHistory.VisibleHistory | R-CarM3/src/utils/camera_ctrl/rearview-camera.c:127-153 | visible is 1 if and only if the last command exists and is not a pause |
| CameraHistory.CommandFlagHistory | R-CarM3/src/utils/camera_ctrl/rearview-camera.c:127-199 | pps_cw is 1 if and only if the last command or successful join is a non-pause command |
| CameraHistory.GroupFlagHistory | R-CarM3/src/utils/camera_ctrl/rearview-camera.c:187-192 | pps_wg is 1 if and only if some join succeeded |
| CameraHistory.CommandFlagImpliesVisible | R-CarM3/src/utils/camera_ctrl/rearview-camera.c:132-148 | a set command flag implies a visible window |
| CameraHistory.ZorderHistory | R-CarM3/src/utils/camera_ctrl/rearview-camera.c:143 | the z-order is the configured one until the first non-pause command and -1 from then on |
| CameraHistory.ScreenUpdates | R-CarM3/src/utils/camera_ctrl/rearview-camera.c:132-148 | there is one visibility update per command, with the value the command asks for |
| CameraOptions.ScanPair | R-CarM3/src/utils/camera_ctrl/rearview-camera.c:352-357 | the scanner reads the number at the start and the one after the first non-digit, which for an operand without separator lies behind the terminator |
| CameraOptions.SkipNumber | R-CarM3/src/utils/camera_ctrl/rearview-camera.c:354-356 | the pointer loop ends one past the first character that is not a digit, the terminator included |
| CameraOptions.ScanUnsigned | R-CarM3/src/utils/camera_ctrl/rearview-camera.c:352-357 | for a first number without sign the scanner returns both numbers |
| CameraOptions.ScanBare | R-CarM3/src/utils/camera_ctrl/rearview-camera.c:352-357 | a number without separator is followed by the number in the text behind it |
| CameraOptions.ScanSigned | R-CarM3/src/utils/camera_ctrl/rearview-camera.c:392-397 | for a negative first number the second result is its magnitude |
| CameraOptions.ScanInvertsPrint | R-CarM3/src/utils/camera_ctrl/rearview-camera.c:352-357 | the scanner inverts the printer if and only if the first number is not negative or the second is its magnitude |
| CameraOptions.SignedExample | R-CarM3/src/utils/camera_ctrl/rearview-camera.c:392-397 | a concrete position that is misread |
| CameraOptions.OwnResultIff | R-CarM3/src/utils/camera_ctrl/rearview-camera.c:352-357 | the numbers read depend on the operand alone if and only if it has a separator |
| CameraOptions.OneKey | R-CarM3/src/utils/camera_ctrl/rearview-camera.c:350-416 | at most one size or position prefix matches an argument |
| CameraOptions.ParseArgument | R-CarM3/src/utils/camera_ctrl/rearview-camera.c:350-416 | an argument overwrites the pair its prefix names and no other |
| CameraOptions.ParseArguments | R-CarM3/src/utils/camera_ctrl/rearview-camera.c:308-449 | after the loop each pair is the operand of the last argument for it, or its default, and ok tells whether a buffer size is set; the three lemmas below spell the options and fields out |
| CameraOptions.ArgumentInMemory | R-CarM3/src/utils/camera_ctrl/rearview-camera.c:308-312 | an argument is the text at its pointer, and the text stored behind its terminator follows it |
| CameraOptions.LastArgumentDecides | R-CarM3/src/utils/camera_ctrl/rearview-camera.c:350-416 | the last argument that starts with -size=, -ssize=, -csize=, -bsize=, -pos=, -cpos= or -spos= decides the window, view, crop or buffer size or the window, crop or view position |
| CameraOptions.PrintedPairArrives | R-CarM3/src/utils/camera_ctrl/rearview-camera.c:350-416 | two numbers in print behind such a text, the first without a sign and any non-digit between them, arrive in its field |
| CameraOptions.NoArgumentKeepsDefault | R-CarM3/src/utils/camera_ctrl/rearview-camera.c:281-294 | a field whose option no argument spells keeps its default: -1 and -1, or 0 and 0 for the window and view positions |
| CameraOptions.PrintedOptionArrives | R-CarM3/src/utils/camera_ctrl/rearview-camera.c:308-416 | a printed pair arrives in the settings when no later argument names its option |
| DlResolver.IsBound | R-CarM3/src/hardware/devb/dl.c:12-20 | the walk decides whether a handle is an entry before the first terminator |
| DlResolver.BoundDlopen | R-CarM3/src/hardware/devb/dl.c:22-30 | opening returns the first entry of that name, or the system's handle |
| DlResolver.BoundDlsym | R-CarM3/src/hardware/devb/dl.c:32-51 | the nested walks answer as first match in the concatenation of all tables, or in the handle's own |
| DlResolver.BoundDlclose | R-CarM3/src/hardware/devb/dl.c:53-58 | closing a bound handle does nothing, any other is the system's |
| DlResolver.SymbolsAre | R-CarM3/src/hardware/devb/dl.c:47-49 | a symbol table is its entries before the first one without a name, in order |
| DlResolver.HandleKinds | R-CarM3/src/hardware/devb/dl.c:22-58 | an entry before the terminator searches its own table and closes as a no-op; everything about any other handle but the default one is left to the system |
| DlResolver.OpenNoName | R-CarM3/src/hardware/devb/dl.c:26-29 | opening without a name is left to the system |
| DlResolver.LookupIsFirst | R-CarM3/src/hardware/devb/dl.c:47-49 | lookup finds a symbol if and only if the table has the name, and then the first one |
| DlResolver.OpenFindsFirst | R-CarM3/src/hardware/devb/dl.c:22-30 | an entry is returned if and only if one has the name, and it is the first |
| DlResolver.OpenedHandle | R-CarM3/src/hardware/devb/dl.c:22-58 | the handle of a bound name searches its own table only, never asks the system and closes as a no-op; any other handle is the system's throughout |
| DlResolver.DefaultFallsBackLast | R-CarM3/src/hardware/devb/dl.c:37-45 | resolving with the default handle asks the system if and only if no bound table defines the name |
| DlResolver.DefaultPrefersEarlier | R-CarM3/src/hardware/devb/dl.c:37-43 | resolving with the default handle answers from the earliest table that defines the name |
| WfdModes.CastInvertsTiming | R-CarM3/src/lib/wfdcfg/wfdcfg.c:54-62 | the timing of mode i is at base + i * size + offset, casting its address gives the mode's address back, and NULL stays NULL |
| WfdModes.ModeListGetNext | R-CarM3/src/lib/wfdcfg/wfdcfg.c:300-315 | from NULL or a returned timing the call returns the next timing, or NULL at the first zero pixel clock |
| WfdModes.Enumerate | R-CarM3/src/lib/wfdcfg/public/wfdqnx/wfdcfg.h:357-376 | iterating from NULL visits exactly the timings of the modes before the first zero pixel clock, at base + k * size + offset, in order and once each |
| WfdModes.GetExtFromList | R-CarM3/src/lib/wfdcfg/wfdcfg.c:64-78 | the walk returns the first entry with the key before the terminator, and nothing without a list or such an entry |
| WfdModes.ModeGetExtension | R-CarM3/src/lib/wfdcfg/wfdcfg.c:317-323 | looking up an extension through a timing searches that same mode's list |
| WfdModes.FirstMatchIsFirstKey | R-CarM3/src/lib/wfdcfg/wfdcfg.c:64-78 | a match is found if and only if some entry before the terminator has the key, and then it is the first |

## Left out

- ArmTlb.RegionDecode: attributes that reach bit 0 or bits 18 and up are outside the contract, because they stop the descriptor from being a 1M section; the table contents are specified for all attributes.
- I2cBus.Bus.Read: counts above the 16 bytes of the receive message in `i2c_read` are outside the contract, because the code would then store past that message. The count is demanded only where a receive is reached; the lemmas about traces hold for every count.
- I2cControl.ReadMode: the same, for read runs that reach a receive.
- I2cControl.RunParsed: the same, for whole runs that reach a receive.
- I2cTraffic.Control: the same, for command lines whose run reaches a receive.
- I2cOptions.I2cControlInfo.SetSubAddr: the sub-address list is parsed into a buffer of 256 bytes and its length checked afterwards, as the code does; stores past the declared two bytes are not modelled.
- CText.StrToUl16: `unsigned long` is 32 bits wide; `errno` and the end pointer are not modelled.
- CText.Atoi: integers are unbounded, so values outside `int` are not modelled.
- CameraOptions.TextBehind: the memory behind the last modelled argument reads as empty text; what a real process finds there is not modelled.
- `getsubopt`: arguments come as an option and its value; only the first suboption of each argument is used, as in the code. argv strings are distinct buffers.
- The camera options that are not pairs (format, device, source, display, pipeline, colours, z-order, quit flag): one field each by the same last-wins rule.
- Interrupt nesting and several CPUs: one CPU, on which disabling interrupts prevents a context switch. `hwi_find_item`, `hwi_off2tag` and the initial agreement of shadow and register are assumed.
- Mutex and condition variable of the PPS thread: no other code reads the flags they protect.
- Screen, capture and PPS libraries, window set-up and teardown, printing, logging, delays and signals.
- The system's `dlopen`, `dlsym`, `dlclose` and `dlerror`: uninterpreted, with handles distinct from bound entries.
- Allocation failure, create and destroy functions and the sample timings of the mode library.
- The other `arm/*.h` headers and `psci.h`: register constants and firmware calls.
