# Verification of the FFADO driver core

FFADO drives FireWire audio devices. Most of it moves values in and out of device registers; the
parts modelled here are the ones where a small mistake is hard to see: checksums, protocols between
several parties, loops over a flash memory that answers in its own time, tables that a device reads
while they are being written, and lists that several threads or several scans change.

Each module models one part of the source. Code that changes things in place is a class or a method
with loops, proved against functions that say what it computes; what those functions promise is
proved as lemmas, over all inputs or over all runs.

| module | models |
|---|---|
| `Crc32`, `Bcd`, `EchoTable` | the two CRC-32 engines: the table generated at run time and the literal one (IEEE 802.3 clause 3.2.9, RFC 1952 section 8) |
| `Flash`, `Session` | the flash memory of a Fireworks device and the session block stored in it |
| `DiceRegisters`, `DiceRouter`, `DiceEap`, `DicePeaks` | block transfers to a DICE device, its routing tables, connection changes from end to end, peak meters |
| `DiceOwnership` | ownership of a DICE device by compare-and-swap among several hosts |
| `Bounce` | the channel handshake of a Bounce master and slave through two registers |
| `DeviceStrings`, `StringList` | specification strings with pruning and matching; splitting and joining lists of names |
| `Discovery`, `Streaming` | the device manager: reconciling the device list with the bus, starting streams with roll-back |
| `MessageBuffer`, `MessageBufferRuns`, `MessageBufferWakeUps` | the ring buffer for debug messages, shared by any number of printing and flushing threads; its calls as runs of their steps; the semaphore that wakes the writer thread |
| `Download` | downloading a firmware image to the BeBoB boot loader |
| `Folds`, `Ranges`, `Quadlets`, `Integers`, `Wrappers` | helpers |

## How the outside world is represented

- A device or a bus is an object with a script: a function from the number of a command to its outcome,
  so every theorem holds for every sequence of successes, failures, busy and short answers.
- Protocols are step relations in which each register access is one atomic step; a run is any sequence
  of enabled steps, so all interleavings are covered. The calls of the Bounce master and of the message buffer
  are proved to be such runs; a lock or unlock of a DICE device makes the same state change as one step.
- Heap objects whose deletion matters (devices, specification entries) are represented by handles; the
  state keeps the list of handles deleted so far.
- Words are 32 bits. The CRC-32 of the BeBoB reader uses `unsigned long`, which is taken to be 32 bits
  wide too. Signed conversions, truncations to a byte and wrap-around of counters are written out.
- A device returns at most the quadlets it was asked for. Programming a flash cell can only clear bits,
  an erase or a failed write stays within its block or range but may leave anything there.
- A failing register access of the Bounce protocol changes nothing; a failing DICE compare-and-swap may
  or may not have reached the device.
- A DICE device that reports success for a load-router command has adopted the table; one that does not
  report success may or may not have done so.

## Where the code does less than it seems to

Each of these is proved, with the exact condition under which the code does what it is meant to do.

- `readFlash` tests its retry counter after a post-decrement: running out of retries goes unnoticed and the
  buffer stays short, while a chunk completed by the very last reply is reported as an error
  (`Flash.ExhaustionIsNotCaught`, `Flash.LastReplyIsRejected`).
- `eraseFlashBlocks` never sets `success` back, so a true result means that no attempt failed; called for no
  quadlets it returns true exactly when the device refuses the erase (`Flash.Device.EraseFlashBlocks`). It
  rounds the start down to a block without lengthening the range, so the requested range is covered exactly
  when it starts with a block (`Flash.RequestedRangeVerifiedIff`, `Flash.UnalignedErase`).
- `waitForFlash` and `waitForRegisterNotEqualTo` report a time-out when the last poll succeeds
  (`Flash.LastFlashPoll`, `Bounce.LastRegisterPoll`).
- `writeRegBlock` sends every transfer of a block to the same address, so only blocks of up to 128 quadlets
  arrive as written (`DiceRegisters.BlockWriteCorrectIff`).
- `setConnectionState` does not report whether the device was updated (`DiceEap.Eap.SetConnectionState`,
  `DiceEap.ConnectOnce`), and a destination without a route reads as connected to source 255
  (`DiceEap.ConnectedMeansRouted`).
- A second `lock` by the host that owns a DICE device forgets the notifier the OWNER register names
  (`DiceOwnership.AccountedRunsIff`, `DiceOwnership.SecondLockStrands`). No later call of any host frees the
  register as long as no block that is still registered is handed out again
  (`DiceOwnership.StrandedForGood`).
- Starting a running Bounce stream again loses its channel (`Bounce.RestartBreaksAgreement`,
  `Bounce.StartedTwice`). A slave whose start is overtaken by a stop ends up with channel -1 but reports
  success (`Bounce.SlaveStartAgrees`, `Bounce.OvertakenStart`). A slave polls one register per stream
  although the master has one per direction: only the first stream of each direction polls its peer's
  (`Bounce.FirstStreamsPollPeers`).
- The entry `hw:-1` equals every GUID entry that follows it, which pruning then removes
  (`DeviceStrings.PruningKeepsMatches`, `DeviceStrings.ShadowedGuid`).
- `discover` keeps known devices without matching them against the specification strings, so the assertion
  on the sorted list fails when a listed device has stopped matching (`Discovery.DeviceManager.Discover`):
  because a bus reset gave it another node number (`Discovery.DeviceManager.BusresetHandler`,
  `Discovery.RenumberedDevice`), or because a specification string was added later
  (`Discovery.LateSpecString`).
- When `enableStreaming` fails, the streams of that device are left running
  (`Streaming.NothingLeftRunningIff`, `Streaming.LeftRunning`).
- The ring buffer looks empty when it is full (`MessageBuffer.RunLooksEmptyIff`,
  `MessageBufferRuns.OverflowRun`), and the writer thread then sleeps while messages are waiting
  (`MessageBufferWakeUps.UnseenRun`); lost increments make the overrun counter too small
  (`MessageBuffer.CallsAccounted`, `MessageBufferRuns.LostIncrementRun`).
- `downloadObject` does not check that the reply to the end command is one, and uses whatever is in its
  fields when it could not be read (`Download.BootloaderManager.DownloadObject`, `Download.UnansweredEnd`);
  a protocol version above 255 is never recognised in a reply (`Download.EchoAnswersIff`).

The comment at `libffado/src/fireworks/IntelFlashMap.h:35` gives large blocks of 32 KB; the constants and the code
use 64 KB, and so does the model. The comment at `libffado/src/devicemanager.cpp:659` speaks of sorting on the
GUID; the comparison puts greater GUIDs first.

## Model

| member | source | states |
|---|---|---|
| Crc32.TableStepIsEightBits | libffado/src/fireworks/fireworks_session_block.cpp:356-368 | one table step on any register and byte equals eight single-bit steps, least significant bit first |
| Crc32.FastCrcRefinesCrc | libffado/src/bebob/bebob_dl_bcd.cpp:321-333 | for every byte string the table-driven CRC equals the bit-at-a-time CRC-32 with preset and final inversion |
| Crc32.CheckValue | libffado/src/bebob/bebob_dl_bcd.cpp:321-333 | the CRC of the octets of "123456789" is 0xCBF43926 |
| Crc32.DifferenceSurvives | libffado/src/fireworks/fireworks_session_block.cpp:356-368 | registers whose difference is not shifted out within n bits, n at most 31, stay unequal after any two n-bit messages: later errors of a burst cannot cancel its first |
| Crc32.BurstDetected | libffado/src/fireworks/fireworks_session_block.cpp:305-369 | two different messages of equal length that differ only within 32 consecutive bits have different CRCs |
| Crc32.FourByteBurstDetected | libffado/src/fireworks/fireworks_session_block.cpp:305-369 | the same for messages that differ only within four consecutive bytes |
| Bcd.Reflect | libffado/src/bebob/bebob_dl_bcd.cpp:307-319 | bit k of the result is bit ch-1-k of the argument, and bits from ch on are clear |
| Bcd.StepsMirrored | libffado/src/bebob/bebob_dl_bcd.cpp:298-302 | a most-significant-first step with polynomial 0x04c11db7 on the mirror image of a register is the mirror image of a least-significant-first step |
| Bcd.GeneratedEntry | libffado/src/bebob/bebob_dl_bcd.cpp:294-304 | reflect, eight shifts, reflect gives the table entry of the bitwise CRC for every index |
| Bcd.CrcTableUnique | libffado/src/bebob/bebob_dl_bcd.cpp:291-305 | there is only one CRC table |
| Bcd.ImageReader.InitCrc32Table | libffado/src/bebob/bebob_dl_bcd.cpp:291-305 | the generated table is the CRC table, for all 256 entries |
| Bcd.ImageReader.GetCrc | libffado/src/bebob/bebob_dl_bcd.cpp:321-333 | the result is the bitwise CRC-32 of the text |
| Bcd.ImageReader.CheckHeaderCrc | libffado/src/bebob/bebob_dl_bcd.cpp:335-363 | true exactly when the file holds a whole header whose crc field is the CRC of the header with that field cleared |
| Bcd.HeaderAcceptedIff | libffado/src/bebob/bebob_dl_bcd.cpp:335-363 | a header is accepted exactly when its crc field holds the CRC of the header with zeros in that field |
| Bcd.SealedHeaderAccepted | libffado/src/bebob/bebob_dl_bcd.cpp:335-363 | so it is accepted once that CRC has been stored, least significant octet first |
| Bcd.HeaderBurstRejected | libffado/src/bebob/bebob_dl_bcd.cpp:335-363 | an accepted header is rejected after any burst of up to 32 bits outside its crc field |
| EchoTable.EchoTableIsCrcTable | libffado/src/fireworks/fireworks_session_block.cpp:39-105 | the 256 literal entries are the CRC table |
| EchoTable.GeneratedTableIsEchoTable | libffado/src/fireworks/fireworks_session_block.cpp:39-105 | the table generated by the BeBoB reader equals the literal table entry by entry |
| Session.Session.CalculateCrcOf | libffado/src/fireworks/fireworks_session_block.cpp:305-369 | the CRC-32 of the block without its first eight bytes; 0 for a block that is too short |
| Session.StoredCrcIsConsistent | libffado/src/fireworks/fireworks_session_block.cpp:140-180 | recomputing the CRC after it was stored in the header gives the stored value |
| Session.HeaderWithCrc | libffado/src/fireworks/fireworks_session_block.cpp:140-180 | storing the CRC replaces the second quadlet of the header and nothing else |
| Quadlets.LeastSignificantFirst | libffado/src/fireworks/fireworks_session_block.cpp:245-293 | words are kept with their least significant octet first, as on the little-endian host the byte swaps are left out for |
| Session.SessionLayout | libffado/src/fireworks/fireworks_session_block.h:94-113 | the sizes of header and sub-session; the CRC guards all but the first two quadlets |
| Session.SessionBurstDetected | libffado/src/fireworks/fireworks_session_block.cpp:305-369 | a consistent session is inconsistent after any burst of up to 32 bits behind the crc field |
| Session.Session.LoadFromMemory | libffado/src/fireworks/fireworks_session_block.cpp:245-270 | succeeds exactly for the session size and then takes over header and sub-session; otherwise changes nothing |
| Session.Session.SaveToMemory | libffado/src/fireworks/fireworks_session_block.cpp:272-293 | succeeds exactly when there is room and then gives header and sub-session |
| Session.Session.SaveToDevice | libffado/src/fireworks/fireworks_session_block.cpp:140-180 | if no read is cut short unnoticed, true exactly when the session base is known, the flash can be locked, every block is emptied at the first attempt, every chunk is written and the flash can be unlocked; then the header carries the new CRC and an aligned session area of the flash holds exactly the session; flash outside the erased blocks and the session area is untouched, for an aligned session area outside the erased blocks alone; the flash is locked before everything else and unlocked last, unless the hardware needs no lock |
| Session.Session.LoadFromDevice | libffado/src/fireworks/fireworks_session_block.cpp:117-138 | true exactly when the session base is known and not zero, the range is valid and every chunk passes; then the session is what the session area of the flash holds, otherwise it is unchanged |
| Session.SaveThenLoad | libffado/src/fireworks/fireworks_session_block.cpp:117-180 | saving one session and loading another succeeds exactly when both halves do, if no read is cut short unnoticed; from an aligned session base the second session then equals the first, with a consistent CRC, through erase, chunked write and chunked read |
| Session.ObligingDeviceSaves | libffado/src/fireworks/fireworks_session_block.cpp:117-180 | on a device that carries out every command at once, both conditions hold |
| Flash.Device.ReadChunk | libffado/src/fireworks/fireworks_device.cpp:826-856 | the inner loop: which replies it consumes, and that the quadlets received so far are the flash contents in order |
| Flash.Device.ReadFlash | libffado/src/fireworks/fireworks_device.cpp:805-858 | true exactly when the range is valid and every chunk completes within 10000 reads or is left short unnoticed; if all complete, the buffer holds exactly the flash range |
| Flash.AnsweredReadsComplete | libffado/src/fireworks/fireworks_device.cpp:838-856 | if no read is answered with nothing at all, every accepted read is complete |
| Flash.ExhaustionIsNotCaught | libffado/src/fireworks/fireworks_device.cpp:851-855 | empty replies throughout are accepted although nothing was read |
| Flash.LastReplyIsRejected | libffado/src/fireworks/fireworks_device.cpp:851-855 | a chunk completed by the 10001st reply is rejected |
| Flash.OneChunkPassesIff | libffado/src/fireworks/fireworks_device.cpp:826-856 | one command of up to 64 quadlets passes exactly when one of 10000 replies completes it or 10001 do not |
| Flash.Device.WriteFlash | libffado/src/fireworks/fireworks_device.cpp:768-803 | true exactly when the range is valid and all its chunks are accepted; then the range is programmed with the buffer, and nothing outside the range ever changes |
| Flash.ChunksAre | libffado/src/fireworks/fireworks_device.cpp:768-803 | a write takes one command for every 64 quadlets begun |
| Flash.Device.EraseFlash | libffado/src/fireworks/fireworks_device.cpp:860-876 | a busy answer counts as accepted; only the block of the address changes |
| Flash.Device.WaitForFlash | libffado/src/fireworks/fireworks_device.cpp:949-977 | true exactly when a poll finds the device ready before the last one, and none fails before |
| Flash.LastFlashPoll | libffado/src/fireworks/fireworks_device.cpp:949-977 | for every time-out, a device that gets ready for the very last poll is reported as timed out |
| Flash.BusyFor | libffado/src/fireworks/fireworks_device.cpp:949-977 | a device that is busy for some polls and then ready is found ready exactly when the last poll is not needed for that |
| Flash.Device.VerifyErased | libffado/src/fireworks/fireworks_device.cpp:916-930 | read back successfully exactly when the read passes; if it is complete, the block is found empty exactly when every quadlet is 0xFFFFFFFF |
| Flash.Device.EraseBlock | libffado/src/fireworks/fireworks_device.cpp:884-932 | one attempt at a block, for a positive number of quadlets: it is found emptied exactly when the command is accepted, the device gets ready, and the block can be read back in full and holds 0xFFFFFFFF only, unless the read is cut short unnoticed; nothing outside the block changes |
| Flash.EmptiesIff | libffado/src/fireworks/fireworks_device.cpp:884-932 | an attempt succeeds exactly when the command is accepted, the device is ready within 200 polls, all reads complete and the cells read as ones |
| Flash.Device.EraseFlashBlocks | libffado/src/fireworks/fireworks_device.cpp:878-947 | for a positive number of quadlets, true if every block is emptied at the first attempt, and only if so when no read is cut short unnoticed; then the range of that length from the start of the first block on reads as erased across both block sizes, and exactly its blocks were erased once each, in order; nothing outside these blocks changes; the loop ends; never more than eleven attempts beyond the blocks |
| Flash.ObligingErases | libffado/src/fireworks/fireworks_device.cpp:878-947 | on a device that carries out every command at once that condition holds, for every range |
| Flash.SomeDeviceIsObliging | libffado/src/fireworks/fireworks_device.cpp:805-977 | there are replies of such a device |
| Flash.ObligingRead | libffado/src/fireworks/fireworks_device.cpp:805-858 | such a device has exactly the aligned ranges that are not empty read, in full |
| Flash.ObligingWrite | libffado/src/fireworks/fireworks_device.cpp:768-803 | and written: the cells then hold what they held and the data have in common |
| Flash.RequestedRangeVerifiedIff | libffado/src/fireworks/fireworks_device.cpp:887-900 | the range that was erased and verified contains the requested one exactly when that starts with a block |
| Flash.UnalignedErase | libffado/src/fireworks/fireworks_device.cpp:878-947 | an erase of 8 KB from 0x9000 on succeeds, but leaves 0xA000 to 0xAFFF as it was |
| Flash.BlocksTileRange | libffado/src/fireworks/fireworks_device.cpp:887-943 | the blocks erased for a range each meet it and each start where the one before ends, across the change of block size at 0x10000 |
| DiceRegisters.Bus.WriteRegBlock | libffado/src/dice/dice_avdevice.cpp:1826-1867 | true exactly when all its transfers succeed, one for every 128 quadlets begun; what is in the registers after success, and after every completed transfer: prefixes of the block, all at the start address |
| DiceRegisters.Bus.ReadRegBlock | libffado/src/dice/dice_avdevice.cpp:1782-1824 | true exactly when all its transfers succeed; then the data are the registers of the range, in order, for any length |
| DiceRegisters.TransfersAre | libffado/src/dice/dice_avdevice.cpp:1782-1867 | a block takes one transfer for every 128 quadlets begun |
| DiceRegisters.BlockWriteCorrectIff | libffado/src/dice/dice_avdevice.cpp:1847-1861 | a block write stores its data, whatever was there before, exactly when the block has at most 128 quadlets |
| DiceRegisters.LongBlockMisses | libffado/src/dice/dice_avdevice.cpp:1847-1861 | for every longer block there are registers that end up different from the data |
| DiceRouter.SetRouteIsMapUpdate | libffado/src/dice/dice_eap.cpp:1884-1897 | setting a route updates the map the table stands for at its destination only |
| DiceRouter.SetRouteKeepsUnique | libffado/src/dice/dice_eap.cpp:1884-1897 | and keeps at most one entry per destination |
| DiceRouter.DropRouteIsMapRemoval | libffado/src/dice/dice_eap.cpp:1925-1935 | removing a route from a table without double entries removes its destination from the map and leaves no double entries |
| DiceRouter.FedIsPreimage | libffado/src/dice/dice_eap.cpp:1947-1956 | in a table without double entries the destinations of a source are the preimage under the map |
| DiceRouter.DecodeEncode | libffado/src/dice/dice_eap.cpp:1816-1845 | decoding an encoded route gives it back |
| DiceRouter.RouteLayout | libffado/src/dice/dice_eap.cpp:1816-1845 | in the registers the destination is the low octet of an entry and the source the next one |
| DiceRouter.RouterConfig.SetupRoute | libffado/src/dice/dice_eap.cpp:1884-1897 | the table after the call is the one with the route set |
| DiceRouter.RouterConfig.MuteRoute | libffado/src/dice/dice_eap.cpp:1914-1923 | an existing destination is fed by the mute source; an absent one makes the call fail without change |
| DiceRouter.RouterConfig.RemoveRoute | libffado/src/dice/dice_eap.cpp:1925-1935 | drops the first entry of the destination, or fails without change |
| DiceRouter.RouterConfig.RemoveRouteFrom | libffado/src/dice/dice_eap.cpp:1899-1912 | drops the first entry of exactly this route, or fails without change |
| DiceRouter.RouterConfig.GetSourceForDestination | libffado/src/dice/dice_eap.cpp:1937-1945 | the map's value at the destination, 255 if there is none |
| DiceRouter.RouterConfig.GetDestinationsForSource | libffado/src/dice/dice_eap.cpp:1947-1956 | all destinations the source feeds, in table order |
| DiceRouter.RouterConfig.Read | libffado/src/dice/dice_eap.cpp:1799-1826 | true exactly when the count can be read, fits the space and the entries can be read; then the table is the one the device block holds, otherwise it is empty |
| DiceRouter.RouterConfig.Write | libffado/src/dice/dice_eap.cpp:1828-1869 | true exactly when zeros and entries fit the space and all transfers succeed; after every completed transfer the device block decodes as the empty or the whole new table, never a mixture; on success it holds the new one; registers outside the block are untouched |
| DiceRouter.WriteThenRead | libffado/src/dice/dice_eap.cpp:1799-1869 | on a bus that carries out every transfer a table can be written exactly when it and the zeros fit the space, and is read back as it was |
| DiceEap.Eap.UpdateConfigurationCache | libffado/src/dice/dice_eap.cpp:363-393 | true exactly when the tables of all rates and the three stream configurations can be read; then the low, mid and high caches hold the tables at the start of the current configuration space and 0x2000 and 0x4000 bytes behind it |
| DiceEap.Eap.LoadRouterConfig | libffado/src/dice/dice_eap.cpp:968-1018 | true exactly when the device is not busy, takes the command, ends it within the polls allowed and reports success; then the space of that rate holds the table written before; other spaces are untouched |
| DiceEap.CommandIff | libffado/src/dice/dice_eap.cpp:968-1018 | a command succeeds exactly when the device is not busy, takes the opcode, is idle at one of the next 100 polls and returns zero |
| DiceEap.Eap.UpdateCurrentRouterConfig | libffado/src/dice/dice_eap.cpp:527-559 | true exactly when the rate is supported, the write and the command succeed and everything can be read back; then the caches agree with the device, the table of the current rate went through encoding, commit and decoding unchanged, and the spaces of the other rates are as before |
| DiceEap.EditedIsMapUpdate | libffado/src/dice/dice_eap.cpp:1642-1666 | a connection change is a map update at its destination (new source, or mute, or nothing) and keeps at most one entry per destination |
| DiceEap.Eap.SetConnectionState | libffado/src/dice/dice_eap.cpp:1642-1666 | the result tells whether the cached table could be edited; the device is updated exactly when writing the edited table, committing it and reading back succeed, so the result tells the truth exactly when both or neither hold; after an update only the table of the current rate has changed, by that map update, and all caches equal the device, and the device holds the edited table in the space of its rate |
| DiceEap.ConnectOnce | libffado/src/dice/dice_eap.cpp:1642-1666 | a first connection on a device whose transfers all fail returns true without updating the device; if they all succeed it is updated |
| DiceEap.ConnectedMeansRouted | libffado/src/dice/dice_eap.cpp:1668-1681 | the connection test means that the source feeds the destination, except exactly for source 255 and a destination without a route |
| DiceEap.ConnectedInTable | libffado/src/dice/dice_eap.cpp:1668-1681 | in terms of the table: the first entry with the low octet of the destination has that source, or none has and the source is 255 |
| DiceEap.SetConnectionReadsBack | libffado/src/dice/dice_eap.cpp:1642-1681 | after a change every source and destination reads back as set, all others as before |
| DiceEap.Eap.GetConnectionState | libffado/src/dice/dice_eap.cpp:1668-1681 | that test, on the table of the current rate |
| DicePeaks.PeakHold | libffado/src/dice/dice_eap.cpp:1971-2026 | over every run of reads and takes the value of a destination is the maximum of its samples since it was last taken, and absent exactly when there are none |
| DicePeaks.EntryLayout | libffado/src/dice/dice_eap.cpp:1990-1997 | the destination is the low octet of an entry, the peak its bits 16 to 27 |
| DicePeaks.PeakSpace.Read | libffado/src/dice/dice_eap.cpp:1971-2000 | true exactly when there is an active router configuration and the transfers of its entries succeed; then the peaks are raised by all entries of the block, otherwise nothing changes |
| DicePeaks.PeakSpace.TakePeak | libffado/src/dice/dice_eap.cpp:2011-2016 | gives the peak of a destination, 0 if none, and forgets it |
| DicePeaks.PeakSpace.TakePeaks | libffado/src/dice/dice_eap.cpp:2018-2026 | gives all peaks and forgets them |
| DiceOwnership.OwnerValueInjective | libffado/src/dice/dice_avdevice.cpp:1183-1185 | different nodes or notifiers give different owner values |
| DiceOwnership.OwnerFields | libffado/src/dice/dice_avdevice.cpp:1183-1185 | 0xFFC0 and the node in the upper 16 bits, the notifier address in the lower 48 |
| DiceOwnership.NoOwnerIsNobody | libffado/src/dice/dice_defines.h:113 | the value for no owner is that of no node, except node 63 with a notifier at address 0 |
| DiceOwnership.HostDevice.Lock | libffado/src/dice/dice_avdevice.cpp:1129-1206 | result, notifier and register for every way the call can go, including a failed transfer that reached the device; true exactly when the swap was answered and found the register free or with this very value |
| DiceOwnership.HostDevice.Unlock | libffado/src/dice/dice_avdevice.cpp:1208-1251 | the same for unlock; true exactly when there was a notifier and the swap was answered |
| DiceOwnership.MutualExclusion | libffado/src/dice/dice_avdevice.cpp:1171-1251 | in every run of lock and unlock calls of any number of hosts at most one host holds the device |
| DiceOwnership.HolderUndisturbed | libffado/src/dice/dice_avdevice.cpp:1171-1251 | no call of another host, an unlock after a failed lock included, changes the register of a holder |
| DiceOwnership.LockSucceedsIff | libffado/src/dice/dice_avdevice.cpp:1171-1206 | in every run an answered lock makes a holder exactly when the register was free or held this very value, and takes a free register |
| DiceOwnership.FailedLockHoldsNothing | libffado/src/dice/dice_avdevice.cpp:1129-1206 | in every run no other outcome makes a holder; only a failed transfer that arrived at a free register changes it |
| DiceOwnership.DisciplinedRunsAccounted | libffado/src/dice/dice_avdevice.cpp:1129-1251 | without a second lock before an unlock, the register is free or holds the value of a host that can still release it, and a holder's own value is in it |
| DiceOwnership.HolderReleases | libffado/src/dice/dice_avdevice.cpp:1226-1251 | a holder's unlock frees the register |
| DiceOwnership.HandedOver | libffado/src/dice/dice_avdevice.cpp:1129-1251 | after any disciplined run a holder can unlock and any host can then lock: the device goes from hand to hand |
| DiceOwnership.AccountedIff | libffado/src/dice/dice_avdevice.cpp:1129-1206 | one call keeps the register accounted for exactly when it is not a lock by the host whose own value is in the register, or such a lock finds no block or gets the block it already has |
| DiceOwnership.AccountedRunsIff | libffado/src/dice/dice_avdevice.cpp:1129-1251 | over whole runs, the register stays accounted for all along exactly when no lock does harm |
| DiceOwnership.HarmStrands | libffado/src/dice/dice_avdevice.cpp:1129-1206 | a harmful lock that is given a new block leaves the register with a value its host has forgotten |
| DiceOwnership.StrandedForGood | libffado/src/dice/dice_avdevice.cpp:1129-1251 | such a value stays in the register whatever any host does later, as long as no block still registered is handed out again |
| DiceOwnership.SecondLockStrands | libffado/src/dice/dice_avdevice.cpp:1129-1251 | a run in which a second lock leaves the register owned by a host that no longer knows it |
| Bounce.HandshakeAgreement | libffado/src/bounce/bounce_avdevice.cpp:312-466 | in every run that starts only stopped streams, between calls: a stream has a channel exactly when its register holds it, one stream per register at most, the registers differ, and the channels allocated are exactly those in the registers; all of them are 0 to 62 |
| Bounce.RunKeepsAgreement | libffado/src/bounce/bounce_avdevice.cpp:312-466 | the inductive invariant behind it, also in the middle of a start or stop |
| Bounce.FailedStartsRestore | libffado/src/bounce/bounce_avdevice.cpp:318-348 | starts that claim no register leave channels, registers and allocations as they were, over any run |
| Bounce.StartOutcome | libffado/src/bounce/bounce_avdevice.cpp:312-394 | in the registers' own terms: a start succeeds exactly when a channel was granted, both accesses are answered and the register of the stream was 0xFFFFFFFF; what each field is then and otherwise |
| Bounce.StopOutcome | libffado/src/bounce/bounce_avdevice.cpp:396-466 | the same for a stop, which succeeds exactly when the register holds what the stream has |
| Bounce.SlaveAdoptsPeerChannel | libffado/src/bounce/bounce_slave_avdevice.cpp:212-270 | over any run of the master, a register in use at its beginning holds at its end the channel of the one stream that publishes it, unless a stop overtook the reader, and exactly then it holds no channel |
| Bounce.FirstStreamsPollPeers | libffado/src/bounce/bounce_slave_avdevice.cpp:212-270 | a slave stream polls the register its peer writes exactly when it is the first of its direction; the second transmit stream polls the register of the receive streams; the addresses 0x10 and 0x14 |
| Bounce.SlaveDevice.StartStreamByIndex | libffado/src/bounce/bounce_slave_avdevice.cpp:212-270 | true exactly when the index is valid, the polled register is seen in use in time and the read after that is answered; the stream then has what that read returned |
| Bounce.AdoptsNeeds | libffado/src/bounce/bounce_slave_avdevice.cpp:279-307 | what it takes for a start: all earlier polls found 0xFFFFFFFF, a poll before the last found something else, and the next read is answered |
| Bounce.SlaveStartAgrees | libffado/src/bounce/bounce_slave_avdevice.cpp:212-270 | when such a start runs while the master takes any steps, the stream ends up without a channel exactly when a stop came between poll and read, otherwise with the channel a master stream publishes in the polled register; for the first stream of its direction that is a stream of the other direction |
| Bounce.OvertakenRun | libffado/src/bounce/bounce_slave_avdevice.cpp:212-270 | a run of the master in which a stop comes between poll and read |
| Bounce.OvertakenStart | libffado/src/bounce/bounce_slave_avdevice.cpp:212-270 | with the answers of that run the start reports success and leaves the stream without a channel |
| Bounce.WaitForRegisterNotEqualTo | libffado/src/bounce/bounce_slave_avdevice.cpp:279-307 | true exactly when the register changes before the last poll and no read fails before; how many polls are made |
| Bounce.LastRegisterPoll | libffado/src/bounce/bounce_slave_avdevice.cpp:279-307 | for every time-out, a change that the very last poll sees is reported as a time-out |
| Bounce.MasterDevice.StartStreamByIndex | libffado/src/bounce/bounce_avdevice.cpp:312-394 | result and new state for every outcome of allocation, read and write, with the roll-back |
| Bounce.MasterDevice.StopStreamByIndex | libffado/src/bounce/bounce_avdevice.cpp:396-466 | the same for a stop |
| Bounce.IsoService.FreeIsoChannel | libffado/src/libieee1394/ieee1394service.cpp:1494-1524 | frees exactly a registered channel of a valid number |
| Bounce.StartIsRun | libffado/src/bounce/bounce_avdevice.cpp:312-394 | a start of a stopped stream is a run of the step relation |
| Bounce.StopIsRun | libffado/src/bounce/bounce_avdevice.cpp:396-466 | so is every stop |
| Bounce.RestartBreaksAgreement | libffado/src/bounce/bounce_avdevice.cpp:312-350 | starting a running stream keeps the agreement exactly when no channel could be allocated |
| Bounce.StartedTwice | libffado/src/bounce/bounce_avdevice.cpp:312-350 | started twice, a stream has no channel, although its register and the allocation still hold the first one |
| Bounce.ReinitialisedMemory | libffado/src/bounce/bounce_slave_avdevice.cpp:69-81 | initialising the registers keeps the agreement exactly when the master holds no channel |
| DeviceStrings.KeptIndices | libffado/src/DeviceStringParser.cpp:358-385 | the survivors of pruning are the entries without an equal predecessor, in their order |
| DeviceStrings.NoTwoEqual | libffado/src/DeviceStringParser.cpp:358-385 | no survivor equals a later one |
| DeviceStrings.EqualIsSymmetricIff | libffado/src/DeviceStringParser.cpp:193-212 | the comparison depends on the order of its operands exactly for hw:-1 against a GUID |
| DeviceStrings.PruneAgain | libffado/src/DeviceStringParser.cpp:249-278 | pruning a pruned list with new entries equals pruning everything at once |
| DeviceStrings.PruningKeepsMatches | libffado/src/DeviceStringParser.cpp:294-317 | pruning keeps the set of matched ROMs exactly when every GUID entry behind an hw:-1 has its like before it, and so whenever no port is negative |
| DeviceStrings.ShadowedGuid | libffado/src/DeviceStringParser.cpp:193-212 | a GUID behind hw:-1 is pruned, and its device is matched before but not after |
| DeviceStrings.CallsPruneOnce | libffado/src/DeviceStringParser.cpp:249-278 | after any sequence of calls the list is what pruning all entries at once leaves, and matches the same ROMs under that condition |
| DeviceStrings.PiecesAreSplit | libffado/src/DeviceStringParser.cpp:254-276 | the pieces parsed are the substrings between semicolons, except that an empty string is one empty piece |
| DeviceStrings.NodeText | libffado/src/DeviceStringParser.cpp:59-97 | "hw:" and two numbers around a comma are a port and a node, in this order; nothing if one cannot be read |
| DeviceStrings.PortText | libffado/src/DeviceStringParser.cpp:59-75 | "hw:" and one number are a port with any node |
| DeviceStrings.GuidText | libffado/src/DeviceStringParser.cpp:98-110 | "guid:" and a number are a GUID |
| DeviceStrings.MatchNodeText | libffado/src/DeviceStringParser.cpp:154-190 | a parser given such a text accepts exactly the devices with that port and node, any node if it is negative |
| DeviceStrings.MatchPortText | libffado/src/DeviceStringParser.cpp:154-190 | exactly the devices on that port |
| DeviceStrings.MatchGuidText | libffado/src/DeviceStringParser.cpp:154-190 | exactly the device with that GUID, none for zero |
| DeviceStrings.DeviceStringParser.ParseString | libffado/src/DeviceStringParser.cpp:249-278 | the list becomes what pruning leaves of the old and the new entries; every object is listed or deleted exactly once |
| DeviceStrings.DeviceStringParser.FindDuplicates | libffado/src/DeviceStringParser.cpp:361-376 | an entry is listed as a duplicate exactly when an earlier entry equals it |
| DeviceStrings.DeviceStringParser.PruneDuplicates | libffado/src/DeviceStringParser.cpp:358-385 | the list becomes its survivors, although a duplicate may be listed several times; every object is listed or deleted exactly once |
| DeviceStrings.DeviceStringParser.RemoveDeviceString | libffado/src/DeviceStringParser.cpp:320-334 | removes and deletes an object in the list, does nothing otherwise |
| DeviceStrings.DeviceStringParser.MatchPosition | libffado/src/DeviceStringParser.cpp:293-307 | the position of the first entry that matches, -1 if none does |
| DeviceStrings.DeviceStringParser.Match | libffado/src/DeviceStringParser.cpp:287-291 | true exactly when some entry matches |
| StringList.SplitString | libffado/src/ffadotypes.h:60-69 | the scan for any non-empty delimiter, terminating |
| StringList.JoinStrings | libffado/src/ffadotypes.h:71-81 | the elements with the joiner between them |
| StringList.JoinAfterSplit | libffado/src/ffadotypes.h:60-81 | joining what was split gives the string back, or the string short of one delimiter, the latter exactly when the scan consumes a delimiter at the end |
| StringList.OneCharacterEnd | libffado/src/ffadotypes.h:60-69 | which for a delimiter of one character means that the string ends with it |
| StringList.SplitAfterJoin | libffado/src/ffadotypes.h:60-81 | for a delimiter of one character, splitting what was joined gives the list back exactly when no element contains the delimiter and the last is not empty |
| StringList.NamesRoundTrip | libffado/src/dice/dice_avdevice.cpp:1587-1592 | non-empty names without backslash, joined by one and ended by two, are read back whatever follows |
| StringList.SplitNameString | libffado/src/dice/dice_avdevice.cpp:1587-1592 | the names are the pieces between backslashes up to the first two in a row |
| Discovery.DeviceManager.ScanGuids | libffado/src/devicemanager.cpp:368-402 | the GUIDs of all readable nodes of all ports that are not local |
| Discovery.DeviceManager.Reconcile | libffado/src/devicemanager.cpp:408-459 | keeps exactly the devices seen on the bus, in order; the rest leave the control tree and are deleted once |
| Discovery.DeviceManager.Rediscover | libffado/src/devicemanager.cpp:476-544 | keeps exactly the devices that pass rediscovery; the rest leave the control tree and are deleted once |
| Discovery.DeviceManager.PickUp | libffado/src/devicemanager.cpp:546-656 | the nested scan equals one pass over all nodes; rejected devices are deleted once, accepted ones join list and control tree |
| Discovery.PickedGuids | libffado/src/devicemanager.cpp:546-656 | that pass adds a device for exactly the GUIDs that an admissible node offers |
| Discovery.PickedRoms | libffado/src/devicemanager.cpp:546-656 | and with the config ROM of such a node |
| Discovery.PickedDevices | libffado/src/devicemanager.cpp:546-656 | it keeps GUIDs distinct, keeps the known devices, and adds only devices that match the specification strings |
| Discovery.BucketsComplete | libffado/src/devicemanager.cpp:667-701 | the positional sort keeps every device exactly when every device matches some specification string |
| Discovery.CanonicalOrder | libffado/src/devicemanager.cpp:658-701 | two results with the same devices are in the same order, whatever the bus order was |
| Discovery.DeviceManager.SortByGuid | libffado/src/libieee1394/configrom.cpp:134-137 | a permutation in descending order of GUID |
| Discovery.DeviceManager.Arrange | libffado/src/devicemanager.cpp:658-701 | the assertion holds exactly when all devices match; then the result is a permutation ordered by position and GUID |
| Discovery.DeviceManager.Discover | libffado/src/devicemanager.cpp:362-703 | distinct GUIDs, control tree and list in step, canonical order, exactly which devices stay, which GUIDs are listed and whose config ROMs the new devices have; the assertion holds exactly when all devices that stay match, so always if the list matched before |
| Discovery.DiscoverOne | libffado/src/devicemanager.cpp:546-656 | on a bus with one node the first discovery lists its device exactly when it is not local, can be read, matches, has a driver, can be discovered and, in snoop mode, snooped |
| Discovery.DiscoverAgain | libffado/src/devicemanager.cpp:408-544 | a later discovery keeps it exactly when it rediscovers, sees it and the device passes |
| Discovery.OrderMeans | libffado/src/devicemanager.cpp:658-701 | of two listed devices the earlier matches an earlier specification string first, or the same one and has the greater GUID |
| Discovery.DeviceManager.HandleBusReset | libffado/src/devicemanager.cpp:249-270 | the listed devices of the port get the node numbers at which the bus shows them now; GUIDs stay distinct and every object accounted for |
| Discovery.DeviceManager.BusresetHandler | libffado/src/devicemanager.cpp:238-290 | after a bus reset the assertion holds exactly when every device that stays matches under its new node number |
| Discovery.DeviceManager.AddSpecString | libffado/src/devicemanager.cpp:224-236 | the new entries join the list, which is pruned |
| Discovery.RenumberedDevice | libffado/src/devicemanager.cpp:238-290 | found by its node number, renumbered by a bus reset, a device makes the assertion fail |
| Discovery.LateSpecString | libffado/src/devicemanager.cpp:224-236 | so does one found without specification strings once a string is added that it does not match |
| Discovery.EachObjectOnce | libffado/src/devicemanager.cpp:408-459 | no device is listed twice, deleted twice, or listed after it was deleted |
| Discovery.DeviceManager.AddElement | libffado/src/libcontrol/Element.cpp:243-272 | adds an element unless it is there already |
| Discovery.DeviceManager.DeleteElement | libffado/src/libcontrol/Element.cpp:274-307 | removes one occurrence of an element, or does nothing |
| Streaming.StartStreamingOnDevice | libffado/src/devicemanager.cpp:847-886 | result and state of the device's streams for every outcome, with the roll-back |
| Streaming.StopStreamingOnDevice | libffado/src/devicemanager.cpp:943-965 | disables the device and stops every stream that can be stopped; true exactly when all can |
| Streaming.DeviceManager.StartStreaming | libffado/src/devicemanager.cpp:888-936 | true exactly when all devices start and the processor manager does; the state of every device in every case |
| Streaming.AllOrNothing | libffado/src/devicemanager.cpp:847-936 | on success everything runs; on failure exactly the streams of a device that failed to enable are left running, and only devices that cannot be disabled again are left enabled |
| Streaming.NothingLeftRunningIff | libffado/src/devicemanager.cpp:879-883 | a failed start leaves nothing running exactly when no device with streams failed to enable |
| Streaming.LeftRunning | libffado/src/devicemanager.cpp:847-936 | a device whose stream runs after a failed start |
| Streaming.DeviceManager.StopStreaming | libffado/src/devicemanager.cpp:967-982 | stops the streams of every device and always reports success |
| MessageBuffer.MaskIsModulo | libffado/src/debugmodule/debugmodule.h:63-64 | masking with a power of two less one is the remainder |
| MessageBuffer.RefinesFifo | libffado/src/debugmodule/debugmodule.cpp:529-546 | over every interleaving of printing and flushing threads in which the buffer never fills up, the output is a prefix of the accepted messages, only pending messages are missing, and the index difference is the number pending |
| MessageBuffer.RunLooksEmptyIff | libffado/src/debugmodule/debugmodule.cpp:540 | in every run a flusher sees the buffer empty exactly when the number pending is a multiple of the size |
| MessageBuffer.FullBufferLosesOldest | libffado/src/debugmodule/debugmodule.cpp:656-657 | with all slots pending the buffer looks empty and the next message overwrites the oldest |
| MessageBuffer.CallsAccounted | libffado/src/debugmodule/debugmodule.cpp:652-671 | accepted messages and counted overruns never exceed the returned calls, and make them up exactly when no two increments of the counter overlapped |
| MessageBuffer.LostIncrement | libffado/src/debugmodule/debugmodule.cpp:666-669 | two increments of the overrun counter that overlap count once |
| MessageBuffer.Manager.Print | libffado/src/debugmodule/debugmodule.cpp:638-674 | appends the message and posts to the semaphore if the lock is free within six attempts, counts an overrun otherwise; one message too many empties the queue |
| MessageBuffer.Manager.MbFlush | libffado/src/debugmodule/debugmodule.cpp:528-546 | puts out all pending messages in order and leaves none |
| MessageBuffer.Manager.ThreadTurn | libffado/src/debugmodule/debugmodule.cpp:548-560 | a turn of the writer thread: with a post it takes one and puts out all pending messages, without one it stays blocked |
| MessageBufferRuns.PrintIsRun | libffado/src/debugmodule/debugmodule.cpp:638-674 | a print call that finds the lock free is a run of the step relation, with the state change of Manager.Print |
| MessageBufferRuns.DropIsRun | libffado/src/debugmodule/debugmodule.cpp:638-674 | so is one that finds it taken six times |
| MessageBufferRuns.FlushIsRun | libffado/src/debugmodule/debugmodule.cpp:528-546 | so is a flush, for any number of pending messages, and a turn of the writer thread, which takes one post from its semaphore |
| MessageBufferRuns.PrintBoth | libffado/src/debugmodule/debugmodule.cpp:638-674 | a manager that represents a state represents, after Print, the state its steps reach |
| MessageBufferRuns.FlushBoth | libffado/src/debugmodule/debugmodule.cpp:528-546 | the same for MbFlush |
| MessageBufferRuns.TurnBoth | libffado/src/debugmodule/debugmodule.cpp:549-560 | and for a turn of the writer thread, which is woken exactly when its semaphore is not zero |
| MessageBufferRuns.OverflowRun | libffado/src/debugmodule/debugmodule.cpp:638-674 | for every buffer size a run from the start in which as many messages as there are slots are accepted, none put out, the buffer looks empty and the first message is overwritten |
| MessageBufferRuns.LostIncrementRun | libffado/src/debugmodule/debugmodule.cpp:652-671 | a run from the start in which two messages are dropped and one overrun is counted |
| MessageBufferWakeUps.NoWakeUpLost | libffado/src/debugmodule/debugmodule.cpp:548-660 | over every interleaving in which the buffer never fills up: when the writer thread sleeps, its semaphore is zero and no print call is between message and post, all accepted messages have been put out |
| MessageBufferWakeUps.UnseenRun | libffado/src/debugmodule/debugmodule.cpp:528-660 | for every buffer size a run from the start in which the buffer fills up, the writer thread wakes for every message, sees none and sleeps again with all of them pending |
| Download.ResponseRoundTrip | libffado/src/bebob/bebob_dl_codes.cpp:67-80 | the deserializer reads from a reply what the device put into it, whatever follows |
| Download.BlockCommandRoundTrip | libffado/src/bebob/bebob_dl_codes.cpp:52-65 | the boot loader reads from a serialized block command its sequence number, address and length |
| Download.CommandOctets | libffado/src/bebob/bebob_dl_codes.cpp:52-190 | the octets of the three commands |
| Integers.LeastSignificantFirst | libffado/src/bebob/bebob_dl_codes.cpp:52-80 | so are the quadlets of commands and replies |
| Download.EchoAnswersIff | libffado/src/bebob/bebob_dl_mgr.cpp:636-644 | the bytes of a reply that echoes the header of a request, whatever follows them, are recognised as its answer exactly when the version fits a byte |
| Download.StartCommandRoundTrip | libffado/src/bebob/bebob_dl_codes.cpp:170-190 | the boot loader reads from a serialized start command the object number, date, time, id and version, and base, length and CRC of the image or of the configuration part |
| Download.ImageFields | libffado/src/bebob/bebob_dl_mgr.cpp:369-389 | the application is the image part of the file at its base address, the other object the configuration part at address zero |
| Download.AcceptedReplies | libffado/src/bebob/bebob_dl_mgr.cpp:432-662 | which replies are accepted, octet by octet: start, block and end |
| Download.BlockInSequence | libffado/src/bebob/bebob_dl_mgr.cpp:425-495 | the j-th block has sequence number j and the next command id, and starts at j times the block size of the image and of the address range |
| Download.ImageReassembled | libffado/src/bebob/bebob_dl_mgr.cpp:425-495 | a boot loader that executes the transfers ends up with the image at its base address, for every image length and block size, and its other memory untouched |
| Download.BootloaderManager.SendBlock | libffado/src/bebob/bebob_dl_mgr.cpp:435-482 | succeeds exactly when the block can be read and sent and the reply matches version, id, code and sequence number without error |
| Download.BootloaderManager.SendImage | libffado/src/bebob/bebob_dl_mgr.cpp:425-495 | succeeds exactly when all blocks do, having sent exactly the blocks of the image; terminates |
| Download.EveryBlockAnswered | libffado/src/bebob/bebob_dl_mgr.cpp:435-482 | when all blocks succeed, the j-th of them has been sent and answered with its command id and code, its sequence number and no error |
| Download.BootloaderManager.DownloadObject | libffado/src/bebob/bebob_dl_mgr.cpp:359-542 | true exactly when the start is answered without error, all blocks succeed and the fields of the end response show a valid image with the header's CRC; the transfers made |
| Download.BootloaderManager.EndTransaction | libffado/src/bebob/bebob_dl_mgr.cpp:507-538 | the end command: valid exactly when the fields read from the reply, or left from before if it could not be read, show a valid image with the CRC; only the end request is sent |
| Download.UnansweredEnd | libffado/src/bebob/bebob_dl_mgr.cpp:507-538 | a download reported as successful although no reply answers the end command |
| Download.DownloadAndApply | libffado/src/bebob/bebob_dl_mgr.cpp:359-542 | after a successful download the boot loader's memory holds the image part at its base address, or the configuration part at zero, byte for byte, and nothing else has changed |
| Download.GoodDownload | libffado/src/bebob/bebob_dl_mgr.cpp:359-542 | a boot loader that answers as it should has the download of every object within the file and its first 2 GB succeed, for every block size, if the protocol version fits an octet |
| Download.BootloaderManager.ReadResponse | libffado/src/bebob/bebob_dl_mgr.cpp:616-662 | true exactly when something could be read and its header answers the command |

## Left out

- FireWire transport, ARM handlers, threads, sleeps and time: register accesses, lock operations and channel allocations are atomic steps that may fail.
- Printing, name formatting, byte swapping on big-endian hosts, and reading session or BCD files into memory.
- Bus resets while a DICE device is owned, and several registrations of one notifier address.
- DICE stream start and stop: the stop path always writes the TX register, so there is no channel balance to prove; Bounce is used for that.
- DiceRouter.RouterConfig.Write: requires at most 128 routes; for more the encoder writes beyond its array, which has no meaning in C++.
- Flash addresses beyond the 2 MB part, where the 32-bit sums of the loops would wrap.
- The snoop mode of the Bounce master and of DICE locking, and Bounce bandwidth, which does not influence the channel.
- Slave mode of discovery, the driver search, device caches and leaked config ROM objects of skipped nodes.
- The parsing of numbers by strtol and strtoll: it is a function the theorems hold for whatever it returns.
- `showBackLog`, the backlog buffer, backtraces and the shutdown of the debug module.
- AV/C plug discovery, mixers, EFC controls other than flash, the Digidesign and ALSA parts, and the C API.
- MessageBuffer.RefinesFifo: assumes fewer pending messages than slots throughout, as the code has no overflow check; what happens otherwise is in `FullBufferLosesOldest` and `UnseenRun`.
- MessageBuffer.Manager.Print: messages longer than a slot, which strncpy would leave unterminated, do not occur because callers limit them.
- Bounce.HandshakeAgreement: assumes that the master starts only stopped streams; the other case is `RestartBreaksAgreement`.
- Bounce.WaitForRegisterNotEqualTo: the time-out is not negative; a negative one would poll until the counter wraps.
- StringList.SplitString: requires a non-empty delimiter, with an empty one the loop does not advance.
- Download.BootloaderManager.DownloadObject: requires a positive block size, with 0 the loop does not advance, and one of at most 65536, the largest asynchronous payload; the padding of the last quadlet of a block is not represented.
- Discovery.DeviceManager.SortByGuid: the standard library's sort is represented by an insertion sort; with distinct GUIDs the result is the same.
- Flash.Device.ReadFlash: for a read that was left short unnoticed only the untouched tail of the buffer is specified.
- Flash.Device.EraseFlashBlocks: when a read was cut short unnoticed, the result depends on what the buffer held before, and only one direction of the condition is stated.
- Session.Session.SaveToDevice: what the flash holds after saving is stated for a session base that starts an erase block; for any other only what is untouched and the bytes saved in memory are.
- DiceEap.Eap.SetConnectionState: requires that the changed table has at most 128 routes, the size of the encoding buffer, and that the router spaces reported by the device do not overlap.
- Flash.Device.WriteFlash: like the other flash operations, for ranges within the 2 MB part.
- Streaming.AllOrNothing: assumes that stops succeed and that nothing runs before; what happens when stops fail is in the contract of StartStreaming.
