# Models of the platform layer of a WiFi SDK

A Dafny model of the parts of the SDK's platform layer that hold real algorithms, with
proofs about them. `dafny verify dfyconfig.toml` checks all of it.

| file | models |
|---|---|
| `Arith.dfy` | powers and remainders the other files need |
| `ExpMod.dfy` | bignum bits, Montgomery products, modular exponentiation on the RSA unit |
| `Digest.dfy` | the SHA-1 and MD5 streams around the hardware compression function |
| `HwCrc.dfy` | the streamed hardware CRC and its bit reversal |
| `ParamStore.dfy` | the two-partition parameter store, with power loss anywhere |
| `Mbox.dfy`, `Timers.dfy` | tick arithmetic and the delta-encoded timer queue |
| `StaticMessages.dfy` | the reusable static messages, one caller for each id, as an interleaving of steps |
| `SharedSlots.dfy` | the same with any number of callers that share the ids |
| `Messages.dfy` | the life of an allocated message from the call to its release |
| `Crc.dfy` | CRC-32 as 32 equations and in words, CRC-8 by table, and what errors they detect |
| `TextCodec.dfy` | decimal, hex and address texts, in both directions |
| `DlList.dfy`, `MemTrack.dfy` | the intrusive list and the tracking allocator built on it |

How the source is mirrored: objects the C code changes in place are classes (digest and CRC
contexts, the RSA unit, the parameter manager, timer nodes, list nodes, the allocator), its
loops are loops, and each such method is proved against a function of its old state. Protocols
that run across tasks or power cycles are state machines over their steps.

What is taken as given, because it lies in hardware, in the C library or in other tasks:

- The RSA unit's product is the Montgomery product for the word length in `RSAN`, provided the
  modulus is odd, fits, and the per-word constant is right; the model makes the software show
  these three before any product. AA and AB write D, DD and BD write A. The buffer `u32 in[64]`
  limits the modulus to 2048 bits. `pstm_*` routines are exact integer arithmetic.
- The compression units are one unknown function of a state and a block; the CRC engine is an
  unknown step of a register and a byte. 64-bit integers are not native, so the digests count
  their length in two words.
- A flash write is complete, torn, or not begun; a complete one may still be answered with EIO,
  when there is no memory to read it back. A torn record fails its magic or CRC test; a
  complete one passes both. The records have the current length, the update mode is off, the
  locks make the calls sequential, and allocation and semaphore creation at start-up succeed.
- Words are 32 bits wide and wrap where the code lets them; signed ints are taken to wrap too,
  where C leaves their overflow undefined (`TextCodec.NoOverflowIff` says when that matters); `|` of disjoint bits is written as
  a sum, by functions that ask for the disjointness (`HwCrc.WithBit`, `ExpMod.OrAbove`,
  `TextCodec.WithNibble`). Bit indices of an exponent are 16-bit ints, so exponents have at most
  32768 bits.
- `malloc` never returns the address of a block in use.
- `StaticMessages` has one caller for each message id. The repository shares some ids among
  callers; `SharedSlots` carries the results over to any number of callers whose calls for one
  id exclude each other, and shows what happens when they do not.
- Timers are touched by the task thread alone: by the fetch loop, by messages, and by routines
  and handlers that it runs, which may set and cancel timers directly.

Places where the code does less than its shape suggests, each proved with a witness or an exact
condition:

- `tls_arch_mbox_fetch` waits as long as asked exactly for timeouts up to 8589934 ms; its
  report is a tick short when the tick counter wraps (`Mbox.WaitIsFaithfulIff`,
  `Mbox.ReportIsExactIff`, `TimerSpec.LongTimeoutFiresEarly`). Up to there a timer may still
  fire a millisecond early, from tick rounding (`TimerSpec.RoundingIsReached`).
- A commit survives a reboot exactly when `modify_count` does not wrap to 0 or nothing changed
  (`ParamStore.CommitSurvivesRebootIff`). Reboots and their repairs keep the parameters at any
  count.
- After EIO the next write is aimed at the last good copy; what a reboot then loads is given
  for every way the two writes can end (`ParamStore.RetryLoads`). A full write after EIO is
  skipped and answered Ok, which is true of the flash exactly when the failed write had nothing
  to change (`ParamStore.SkipAfterFailureIsDurableIff`).
- A reset to defaults leaves the old parameters or the defaults, wherever it is cut, exactly
  when partition 1 holds the newest record, the same parameters, or the defaults
  (`ParamStore.ResetIsOldOrNewIff`, `ParamStore.ResetCanBringBackStaleParameters`).
- Writing the auto-trigger period also carries the debug mode into flash, because the `case`
  falls through; every other write changes only the field it names
  (`ParamStore.CopyKeepsOtherFieldsIff`, `ParamStore.CommitKeepsOtherFieldsIff`,
  `ParamStore.AutoTriggerCommitsDebugMode`).
- The count of a static message is right exactly as long as its two updates have not overlapped
  and no blocking post of it was given up; after either the slot turns every call away for good
  (`StaticMessages.CountIsRightIff`, `StaticMessages.WedgedForGood`,
  `StaticMessages.LostUpdateWedgesTheSlot`, `StaticMessages.GivenUpWedgesTheSlot`). This is for
  calls of one id that exclude each other. Two callers of one id that both pass the test have
  the second pair run twice and the first never, and can leave the slot turning every call away
  (`SharedSlots.TwoCallersInOneSlot`).
- A blocking post that meets a full mailbox ten times loses its message and still reports
  success (`Messages.LostIff`, `Messages.SuccessMeansPostedIff`, `Messages.SuccessCanBeALoss`).
- `strtoip` reads past the buffer unless a bad field with a dot behind it stops it, or there are
  three dots and the last field ends inside (`TextCodec.StaysInsideExactlyWhen`,
  `TextCodec.TwoFieldsRunOver`). It leaves the dot cut out after a bad field
  (`TextCodec.RestoredExactlyWhen`), and answers 0.0.0.0 with an error although it stores it
  (`TextCodec.StrToIp`).
- `strtodec` stores the number written exactly when it fits an int (`TextCodec.NumberIsExactIff`).
- A CRC update takes in all of its data exactly when there are fewer than 65536 bytes
  (`HwCrc.ToldWhole`).

## Model

| member | source | states |
|---|---|---|
| ExpMod.ExpMod | Platform/Common/crypto/wm_crypto_hard.c:1053-1129 | for every base, every exponent of up to 32768 bits including 0, and every odd modulus up to 2048 bits, the result is a^e mod n; after each bit the live accumulator (A or D by the flag) is the Montgomery form of a to the consumed prefix of e |
| ExpMod.Load | Platform/Common/crypto/wm_crypto_hard.c:1062-1080 | the word length is the smallest whole number of words that holds n, the unit's three preconditions are met, B holds the base and A holds one, both in Montgomery form |
| ExpMod.Turn | Platform/Common/crypto/wm_crypto_hard.c:1086-1109 | one turn squares the live accumulator, multiplies it by B when the bit is set, and the flag names the buffer the result is in |
| ExpMod.TurnExtendsPrefix | Platform/Common/crypto/wm_crypto_hard.c:1082-1110 | a turn takes the scaled power of a prefix h of the exponent to that of 2h+bit |
| ExpMod.LeaveMontgomeryForm | Platform/Common/crypto/wm_crypto_hard.c:1111-1123 | multiplying by one and reading the other buffer gives the plain residue |
| ExpMod.CalMc | Platform/Common/crypto/wm_crypto_hard.c:1020-1036 | for an odd input and any word width w the constant is below 2^w and constant * input is -1 modulo 2^w, after w-1 rounds |
| ExpMod.McIsUnique | Platform/Common/crypto/wm_crypto_hard.c:1017-1036 | no other word has that product |
| ExpMod.LiftInverse | Platform/Common/crypto/wm_crypto_hard.c:1026-1034 | one round turns an inverse modulo p into one modulo 2p |
| ExpMod.McOf | Platform/Common/crypto/wm_crypto_hard.c:1070-1074 | the constant made from the lowest one or two 28-bit digits serves the whole modulus |
| ExpMod.LowWordOfModulus | Platform/Common/crypto/wm_crypto_hard.c:1070-1073 | both ways of forming dp0 give n modulo 2^32, an odd word |
| Montgomery.MontIsTheMontgomeryProduct | Platform/Common/crypto/wm_crypto_hard.c:977-1016 | the product of the unit is the one residue r with r * 2^k congruent to x * y |
| Montgomery.MontOfScaled | Platform/Common/crypto/wm_crypto_hard.c:977-1016 | the product of two numbers in Montgomery form is their product in Montgomery form |
| Montgomery.MontByOne | Platform/Common/crypto/wm_crypto_hard.c:1111-1123 | multiplying by one leaves Montgomery form |
| Bignum.GetBitIsBitOfValue | Platform/Common/crypto/wm_crypto_hard.c:53-65 | a bit read out of its base-2^28 digit is that bit of the number |
| Bignum.CountBitsBounds | Platform/Common/crypto/wm_crypto_hard.c:1062-1081 | the bit count the loop starts from lies exactly between two powers of two |
| Bignum.DigitsCount | Platform/Common/crypto/wm_crypto_hard.c:53-65 | digits have 28 bits, the lowest digit first |
| Digest.DigestInChunks | Platform/Common/crypto/wm_crypto_hard.c:566-708 | however a message is cut into updates, SHA-1 and MD5 give the hash of the padded whole (FIPS 180-4 section 5.1.1; RFC 1321 sections 3.1 and 3.2) |
| Digest.Context.Update | Platform/Common/crypto/wm_crypto_hard.c:597-622 | the bytes taken in are the old ones followed by the new; the length words count the compressed bits modulo 2^64 |
| Digest.Context.AddBits | Platform/Common/crypto/wm_crypto_hard.c:613-617 | the carry test makes a sum modulo 2^64 of the two length words |
| Digest.Context.CountTail | Platform/Common/crypto/wm_crypto_hard.c:656-661 | the length words become the bit count of the whole message modulo 2^64 |
| Digest.Context.Pad | Platform/Common/crypto/wm_crypto_hard.c:664-697 | the blocks compressed are the padded message, whether the length fits the last block or takes one more |
| Digest.Context.Final | Platform/Common/crypto/wm_crypto_hard.c:639-708 | writes the hash of everything taken in, big-endian; a null destination is refused and changes nothing |
| Digest.Context.Emit | Platform/Common/crypto/wm_crypto_hard.c:884-890 | the state words go out one after the other in the byte order of the algorithm |
| Digest.FoldAppend | Platform/Common/crypto/wm_crypto_hard.c:529-553 | one more block compresses once more |
| Digest.BitCountAdd | Platform/Common/crypto/wm_crypto_hard.c:839-844 | bit counts modulo 2^64 add up |
| Digest.PaddingInjective | Platform/Common/crypto/wm_crypto_hard.c:664-697 | different messages of any length have different padded forms |
| Digest.StoreWorth | Platform/Common/crypto/wm_crypto_hard.c:702-705 | read from the top byte down for SHA-1 and from the lowest byte up for MD5, the four bytes stored for a word are worth that word (FIPS 180-4 section 3.1; RFC 1321 section 2) |
| Digest.LengthFieldWorth | Platform/Common/crypto/wm_crypto_hard.c:694-695 | the last eight bytes of the padding, read in the byte order of the algorithm, are eight times the length modulo 2^64 |
| Digest.StartWords | Platform/Common/crypto/wm_crypto_hard.c:566-572 | the start words stored are the bytes of section 3.3 of RFC 1321; SHA-1 starts with the same four and a fifth |
| Digest.StoreAllAt | Platform/Common/crypto/wm_crypto_hard.c:884-886 | word i of the state stands in output bytes 4i to 4i + 3 |
| Digest.PaddedLayout | Platform/Common/crypto/wm_crypto_hard.c:664-697 | the message, the byte 80 hex, fewer than 64 zeros, and the length, in whole blocks of 64 bytes |
| Digest.HashOfOneBlock | Platform/Common/crypto/wm_crypto_hard.c:639-708 | up to 55 bytes are hashed by one compression of the start words |
| HwCrc.Reflect | Platform/Common/crypto/wm_crypto_hard.c:67-78 | for every width up to 32 the loop reverses the lowest bits; the bits set are disjoint |
| HwCrc.ReflectedTwice | Platform/Common/crypto/wm_crypto_hard.c:67-78 | reversing twice gives x modulo 2^ch |
| HwCrc.ReflectedFromTop | Platform/Common/crypto/wm_crypto_hard.c:67-78 | the reversal seen from its other end |
| HwCrc.Context.Update | Platform/Common/crypto/wm_crypto_hard.c:467-509 | the new state is the CRC over as much of the data as the 16-bit length field tells of, for every type and mode |
| HwCrc.CrcConcat | Platform/Common/crypto/wm_crypto_hard.c:467-509 | one string after another leaves the state both leave as one string |
| HwCrc.CrcInChunks | Platform/Common/crypto/wm_crypto_hard.c:467-509 | chunks each below 65536 bytes leave the CRC of the whole, however long that is |
| HwCrc.ToldWhole | Platform/Common/crypto/wm_crypto_hard.c:471 | the length field tells of all the data exactly when there are fewer than 65536 bytes |
| HwCrc.Widths | Platform/Common/crypto/wm_crypto_hard.c:477-492 | the registers are 8, 16, 16 and 32 bits wide, and 16 for any other type |
| HwCrc.ReflectedBit | Platform/Common/crypto/wm_crypto_hard.c:67-78 | bit i of the reversal is bit ch - 1 - i of the number |
| HwCrc.CrcByMode | Platform/Common/crypto/wm_crypto_hard.c:473-509 | in the plain mode the state is the register, in the other its reversal, on the way in as on the way out; no data change nothing |
| HwCrc.ShiftedByOne | Platform/Common/crypto/wm_crypto_hard.c:498-509 | a byte takes the register one step of the engine on |
| ParamStore.RunRefinesAtomicRegister | Platform/Common/Params/wm_param.c:58-459 | over every run of calls, power losses and interrupted reboots the store behaves like a register whose commits happen entirely or not at all, and between calls the shadow is what a reboot would load |
| ParamStore.StepRefines | Platform/Common/Params/wm_param.c:58-459 | the same for one event |
| ParamStore.CommitIsAtomic | Platform/Common/Params/wm_param.c:58-303 | a commit in step leaves the old parameters or the new, the new exactly when its write was complete, unless the count wraps and something changes |
| ParamStore.CommitTargetsTheOlderPartition | Platform/Common/Params/wm_param.c:265-299 | a commit leaves alone the partition that holds the shadow, and with it the parameters a reboot would load |
| ParamStore.WriteBeside | Platform/Common/Params/wm_param.c:265-299 | while a record that is newer, or has the same parameters, is written beside the one kept, a reboot loads the kept parameters, and the new ones once it is whole |
| ParamStore.CommitSurvivesRebootIff | Platform/Common/Params/wm_param.c:265-299 | a completed commit survives a reboot exactly when the count did not wrap or nothing changed |
| ParamStore.BootKeepsLoaded | Platform/Common/Params/wm_param.c:316-459 | recovery comes up with what was there and its repairs, interrupted anywhere and at any count, keep it; a boot that went well leaves the store in step |
| ParamStore.RepairKeepsLoaded | Platform/Common/Params/wm_param.c:418-434 | rewriting one damaged partition keeps what a reboot loads, even when the count wraps |
| ParamStore.BootFromNothing | Platform/Common/Params/wm_param.c:394-417 | with both partitions damaged the defaults come up, interrupted anywhere |
| ParamStore.RebootChangesNothing | Platform/Common/Params/wm_param.c:316-459 | after a boot that went well another boot changes neither flash nor parameters |
| ParamStore.ShadowIsWhatARebootLoads | Platform/Common/Params/wm_param.c:849-857 | in step the shadow equals what a reboot would load, so reads from flash are sound |
| ParamStore.ShadowAfterCommitIff | Platform/Common/Params/wm_param.c:265-299 | after a commit, whatever it answers, the shadow is what a reboot would load exactly when the record landed without the count wrapping, or changed nothing |
| ParamStore.LandedStaysInStepIff | Platform/Common/Params/wm_param.c:287-299 | a complete record leaves the store in step, even when it could not be read back and EIO is answered, exactly when the count did not wrap or nothing changed |
| ParamStore.CopyKeepsOtherFieldsIff | Platform/Common/Params/wm_param.c:70-263 | a write carries over the field named, and leaves every other field alone exactly when the id is not the auto-trigger period or the debug modes agree |
| ParamStore.CommitKeepsOtherFieldsIff | Platform/Common/Params/wm_param.c:58-303 | the same for what a reboot loads before and after a commit |
| ParamStore.AutoTriggerCommitsDebugMode | Platform/Common/Params/wm_param.c:150-155 | a debug mode set for the session only is in flash after the auto-trigger period was set in flash |
| ParamStore.RetryLoads | Platform/Common/Params/wm_param.c:265-299 | what a reboot loads after EIO and a further write of any id with any working copy, for every way the first can fail and the second can end; that write goes to the last good record |
| ParamStore.SkipAfterFailureIsDurableIff | Platform/Common/Params/wm_param.c:1072-1091 | a full write after EIO that equals the shadow is answered Ok, and that is true of the flash exactly when the failed write had nothing to change |
| ParamStore.SkipInStepIsDurable | Platform/Common/Params/wm_param.c:1072-1091 | in step the skip of an equal full write is true of the flash |
| ParamStore.ResetLoads | Platform/Common/Params/wm_param.c:1104-1115 | what a reboot loads after a reset to defaults, for every way its two writes can end |
| ParamStore.ResetIsOldOrNewIff | Platform/Common/Params/wm_param.c:1104-1115 | a reset is old-or-new under every cut exactly when partition 1 holds the newest record, the same parameters, or the defaults |
| ParamStore.ResetCanBringBackStaleParameters | Platform/Common/Params/wm_param.c:1104-1115 | a store in step for which a cut between the writes, and a torn first write, bring back parameters already replaced |
| ParamStore.HandledIds | Platform/Common/Params/wm_param.c:58-69 | the ids accepted are -1 and 0 to 50 without 25 |
| ParamStore.OtherIdsAreRefused | Platform/Common/Params/wm_param.c:620-837 | a set or a write with any other id changes nothing, RAM and flash, and is answered EINVALIDID for 25 and EINVALID for the rest |
| ParamStore.WhatAWriteLeaves | Platform/Common/Params/wm_param.c:287-299 | the record, what was there before, or nothing valid, for each way a write can end |
| ParamStore.WhatTheCallerIsTold | Platform/Common/Params/wm_param.c:289-299 | with the power still on, Ok exactly for a record written and read back, EIO for every other end |
| ParamStore.RecordsTakeTurns | Platform/Common/Params/wm_param.c:265-281 | the next record goes to the other partition, and its count is one up, 0 after 65535 |
| ParamStore.DefaultsInBoth | Platform/Common/Params/wm_param.c:394-417 | start-up from nothing, and a reset, leave the defaults in both partitions with count 1 |
| ParamStore.RepairCopies | Platform/Common/Params/wm_param.c:418-434 | the repair of one damaged partition writes the record found into it, one count up |
| ParamStore.PutFieldStores | Platform/Common/Params/wm_param.c:631-830 | a set puts the value given for the id into the field of that id and leaves every other; -1 puts all of it |
| ParamStore.SetStores | Platform/Common/Params/wm_param.c:620-837 | the same for the working copy after every set that answers Ok; one that is not for flash leaves flash and shadow alone |
| ParamStore.SetSurvivesReboot | Platform/Common/Params/wm_param.c:58-837 | in step and below count 65535, a set that goes to flash and completes is there after a power loss and a start-up that may be cut again; every other field is as before, the debug mode excepted when the auto-trigger period was set |
| ParamStore.SetAllSurvivesReboot | Platform/Common/Params/wm_param.c:58-837 | a set of everything likewise comes back whole |
| ParamStore.ParamManager.ParamToFlash | Platform/Common/Params/wm_param.c:58-303 | id checks, fields carried over, count and partition chosen, shadow advanced before the write, and the ways the write can end |
| ParamStore.ParamManager.ReadPartitions | Platform/Common/Params/wm_param.c:357-392 | the loop settles on the newest undamaged record and notes what is damaged |
| ParamStore.ParamManager.RestoreDamaged | Platform/Common/Params/wm_param.c:418-434 | the loop rewrites the one damaged partition, if any |
| ParamStore.ParamManager.Init | Platform/Common/Params/wm_param.c:316-459 | start-up is the boot step: refused when already up, else recovery with its repairs |
| ParamStore.ParamManager.Set | Platform/Common/Params/wm_param.c:620-837 | the working copy changes in the field named, and is committed when asked |
| ParamStore.ParamManager.ToFlash | Platform/Common/Params/wm_param.c:1072-1092 | a full write equal to the shadow is skipped, anything else is committed |
| ParamStore.ParamManager.Get | Platform/Common/Params/wm_param.c:849-1061 | a read from flash gives what a reboot would load, whenever the store is in step |
| Mbox.Fetch | Platform/Common/task/wm_wl_mbox.c:131-159 | SYS_ARCH_TIMEOUT exactly on expiry, else at most the real time waited |
| Mbox.ReportedNeverExceedsReal | Platform/Common/task/wm_wl_mbox.c:149-158 | a report is never ahead of the clock and never looks like a timeout |
| Mbox.ReportIsExactIff | Platform/Common/task/wm_wl_mbox.c:151-158 | the report is exact unless the tick counter or the product wrapped |
| Mbox.WaitIsFaithfulIff | Platform/Common/task/wm_wl_mbox.c:135-139 | the wait is as long as asked, up to tick rounding, exactly for timeouts up to 8589934 ms |
| TimerSpec.InsertIsInsertionByDue | Platform/Common/task/wm_wl_timers.c:87-123 | inserting into the deltas is stable insertion by deadline, behind equal ones, and moves no other deadline |
| TimerSpec.InsertionPlace | Platform/Common/task/wm_wl_timers.c:87-123 | the new timer stands behind all that are due no later than it and in front of all others |
| TimerSpec.RemoveIsRemovalOfFirst | Platform/Common/task/wm_wl_timers.c:137-164 | cancelling removes the first match and moves no other deadline |
| TimerSpec.RemovalPlace | Platform/Common/task/wm_wl_timers.c:137-164 | just the first timer of this handler and argument goes |
| TimerSpec.CancelUndoesInsert | Platform/Common/task/wm_wl_timers.c:87-164 | cancelling a timer that was not queued before it was inserted restores the list exactly |
| TimerSpec.InsertKeepsTotal | Platform/Common/task/wm_wl_timers.c:106-121 | no sum of deltas outgrows a word by an insertion |
| TimerSpec.RemoveKeepsTotal | Platform/Common/task/wm_wl_timers.c:155-158 | nor by a removal |
| TimerSpec.RunIsFaithful | Platform/Common/task/wm_wl_timers.c:28-164 | over every run each timer inserted has fired, was cancelled or is queued for the same moment, and fires exactly when the clock of the queue reaches it, in due order |
| TimerSpec.ClockGainsAtMostRounding | Platform/Common/task/wm_wl_timers.c:37-71 | over any stretch of a run the queue's clock gains on real time at most a millisecond for each timer fired in it, as long as no wait is longer than the longest |
| TimerSpec.ClockLosesAtMostRounding | Platform/Common/task/wm_wl_timers.c:37-71 | over any stretch of a run in which nothing wraps, twice the ticks that passed with something queued are at most what the clock gained plus a millisecond for each timer fired, so messages put no timer off |
| TimerSpec.ReceivedChargesHead | Platform/Common/task/wm_wl_timers.c:62-71 | a message takes the reported wait off the head, down to nothing, and moves the clock on by as much; nothing else changes |
| TimerSpec.ReceivedChargesRealTime | Platform/Common/task/wm_wl_timers.c:62-71 | a message after so many ticks, no later than the head is due and without a wrap, takes two milliseconds for each tick off the head and moves the clock on by them |
| TimerSpec.ZeroFiresAtOnce | Platform/Common/task/wm_wl_timers.c:40-58 | a head with no time left fires before anything is waited for |
| TimerSpec.ExpiriesFireInOrder | Platform/Common/task/wm_wl_timers.c:40-61 | as many waits as expire fire as many timers, in queue order, each at its moment, and nothing else |
| TimerSpec.RoundingIsReached | Platform/Common/task/wm_wl_timers.c:37-71 | a timer of 3 ms that fires after one tick of 2 ms |
| TimerSpec.TimersSorted | Platform/Common/task/wm_wl_timers.c:87-123 | the deltas always spell moments in due order |
| TimerSpec.LongTimeoutFiresEarly | Platform/Common/task/wm_wl_timers.c:41-42 | a timeout beyond the limit fires before its time |
| TimerSpec.UnqueuedNeverFires | Platform/Common/task/wm_wl_timers.c:47-61 | a handler not queued does not run until it is inserted again |
| TimerSpec.CancelledTimerNeverRuns | Platform/Common/task/wm_wl_timers.c:137-164 | a timer inserted once and cancelled before it fires runs no more |
| Timers.TimerQueue.Timeout | Platform/Common/task/wm_wl_timers.c:87-123 | the linked list afterwards spells the insertion; without memory nothing changes |
| Timers.TimerQueue.Untimeout | Platform/Common/task/wm_wl_timers.c:137-164 | the linked list afterwards spells the removal |
| Timers.TimerQueue.Round | Platform/Common/task/wm_wl_timers.c:37-71 | one pass of the fetch loop charges the head or fires it, as the specification says |
| Timers.TimerQueue.FindSlot | Platform/Common/task/wm_wl_timers.c:111-120 | the walk stops at the entry to insert behind, with the time that is left over |
| Timers.InsertInSlot | Platform/Common/task/wm_wl_timers.c:111-120 | splitting the delta at that entry is the insertion of the specification |
| Timers.RemoveAt | Platform/Common/task/wm_wl_timers.c:146-160 | unlinking the first match and giving its time back is the removal of the specification |
| StaticMessages.RunHolds | Platform/Common/task/wm_wl_task.c:27-86 | with one caller for each id, under every interleaving at most one copy of a message is in flight, every slot is right or wedged, and what was run, is held and is queued is in order what was posted |
| StaticMessages.CountIsRightIff | Platform/Common/task/wm_wl_task.c:30-82 | with one caller for each id, cnt is right modulo 256 after a run exactly when along it no two updates of it overlapped and no blocking post of the message was given up; otherwise the slot is wedged |
| StaticMessages.WedgedForGood | Platform/Common/task/wm_wl_task.c:68-82 | a wedged slot stays so whatever happens |
| StaticMessages.WedgedTurnsAway | Platform/Common/task/wm_wl_task.c:68-69 | a wedged slot turns every call away and posts nothing |
| StaticMessages.RunsExactlyWhatWasPosted | Platform/Common/task/wm_wl_task.c:27-86 | with one caller for each id, the pairs run are a prefix of the pairs posted, all of them once the mailbox is drained; at rest cnt is 0 exactly if nothing disturbed it |
| StaticMessages.LostUpdateWedgesTheSlot | Platform/Common/task/wm_wl_task.c:30-82 | a run with overlapping updates after which every call for the slot is turned away |
| StaticMessages.GivenUpWedgesTheSlot | Platform/Common/task/wm_wl_task.c:75-82 | a run with one blocking post given up, nothing posted, after which every call for the slot is turned away |
| StaticMessages.TenAttempts | Platform/Common/task/wm_wl_mbox.c:81-90 | a blocking post is tried ten times, and then its caller goes on to count |
| StaticMessages.CountsAreBytes | Platform/Common/task/wm_wl_task.c:82 | in a slot that is right, cnt is what is in flight less what is not yet counted, modulo 256 |
| StaticMessages.ProducerFollows | Platform/Common/task/wm_wl_task.c:64-86 | each step of a producer, with the mailbox full or not, keeps its slot right unless it overlaps or gives up, and a wedged one wedged |
| StaticMessages.TaskFollows | Platform/Common/task/wm_wl_task.c:27-32 | each step of the task thread does the same for every slot |
| SharedSlots.RunMatches | Platform/Common/task/wm_wl_task.c:27-86 | with any number of callers, a run in which the calls for one id exclude each other is a run with one caller for each id |
| SharedSlots.RunsExactlyWhatWasPosted | Platform/Common/task/wm_wl_task.c:27-86 | in such a run the task runs exactly the pairs posted, in order, and a slot at rest lets the next call in exactly if nothing disturbed it |
| SharedSlots.InvariantHolds | Platform/Common/task/wm_wl_task.c:27-86 | in such a run at most one copy of a message is in flight, and a slot is right exactly if nothing disturbed it |
| SharedSlots.TwoCallersInOneSlot | Platform/Common/task/wm_wl_task.c:68-82 | without that exclusion a run, with no raise overlapping a lowering and nothing given up, in which one pair runs twice, the other never, and every later call is turned away |
| Messages.RunKeepsOwned | Platform/Common/task/wm_wl_task.c:12-155 | at all times each allocated message is in exactly one place: poster, mailbox, task thread, freed or given up; and only allocated ones are freed |
| Messages.FreedOnce | Platform/Common/task/wm_wl_task.c:23-40 | nothing is freed twice and what is freed is nowhere else |
| Messages.FreedExactlyOnce | Platform/Common/task/wm_wl_task.c:23-40 | a message whose call has returned and that is neither queued nor worked on has been freed exactly once, or never if it was given up after ten full attempts |
| Messages.RunKeepsLogs | Platform/Common/task/wm_wl_task.c:19-44 | the task works on messages in the order of posting, and the timers are what those messages and the direct calls of routines and handlers make |
| Messages.LostIff | Platform/Common/task/wm_wl_task.c:88-155 | under every interleaving a message is given up exactly when it was posted blocking and ten attempts met a full mailbox, and refused exactly when it was not and its one attempt did |
| Messages.SuccessMeansPostedIff | Platform/Common/task/wm_wl_task.c:88-155 | an error means freed and never posted; success means posted exactly unless the post was blocking and ten attempts met a full mailbox |
| Messages.SuccessCanBeALoss | Platform/Common/task/wm_wl_mbox.c:73-90 | for a mailbox of any size a run in which a timeout is reported as posted and never was |
| Messages.FullMailboxRefuses | Platform/Common/task/wm_wl_task.c:99-112 | a callback in the form that does not block is refused at a full mailbox at once, and its message freed |
| Messages.TimersAreNeverRefused | Platform/Common/task/wm_wl_task.c:115-155 | in every run setting and cancelling block, so that only callbacks are ever answered with an error |
| Messages.WorkTakesEffect | Platform/Common/task/wm_wl_task.c:22-40 | work on a callback calls it with its context; on a timeout sets a timer that many milliseconds after the clock, if there is memory; on an untimeout removes it; and nothing else |
| Messages.StaticWorkTakesEffect | Platform/Common/task/wm_wl_task.c:27-32 | work on a static message touches no timer and calls no allocated callback |
| Messages.SetThroughTheMailbox | Platform/Common/task/wm_wl_task.c:33-36 | over every run: a timeout worked on with memory stands in the log of timer events at its place among the commands, and there it set its timer that many milliseconds after the clock |
| Messages.OthersSetNothing | Platform/Common/task/wm_wl_task.c:19-44 | without memory a timeout, and in any case a callback or a static message, adds no timer command |
| Messages.AddsAreSets | Platform/Common/task/wm_wl_task.c:33-36 | a timer was set just as often as there were timeouts worked on with memory and direct calls for it |
| Messages.RunKeepsCalls | Platform/Common/task/wm_wl_task.c:23-26 | over every run the callbacks called, with their contexts, are those of the messages worked on, in order and each once |
| Messages.TimerCallTakesEffect | Platform/Common/task/wm_wl_timers.c:87-164 | a direct call sets or cancels as the queue does |
| Messages.CancelledThroughTheMailbox | Platform/Common/task/wm_wl_task.c:33-40 | a timer set at most once and then cancelled, by messages or by direct calls in the task, runs no more unless it is set again |
| Lfsr.BurstDetected | Platform/Common/utils/utils.c:24-190 | for any register and message length, strings differing only within a window as long as the register leave different registers |
| Lfsr.FeedInjective | Platform/Common/utils/utils.c:24-190 | the same data never bring two different registers together |
| Crc32.EquationIsEightShifts | Platform/Common/utils/utils.c:127-163 | each of the 32 equations gives the bit that eight shifts of the register leave |
| Crc32.CalCrc32 | Platform/Common/utils/utils.c:104-171 | a byte is taken in as eight single-bit shifts, lowest data bit first |
| Crc32.ShiftReflects | Platform/Common/utils/utils.c:104-190 | the register run from its high end mirrors the reflected one with polynomial 0xEDB88320 |
| Crc32.GetCrc32 | Platform/Common/utils/utils.c:173-190 | for every byte string the bit-serial CRC-32 of the standards, preset and complemented (section 8 of RFC 1952) |
| Crc32Words.CrcInWords | Platform/Common/utils/utils.c:104-190 | the same in 32-bit words: preset to ones, each byte added and taken down eight bits with 0xEDB88320, complemented |
| Crc32Words.PolyBits | Platform/Common/utils/utils.c:104-190 | the reflected polynomial, as 32 literal bits |
| Crc32Words.CheckValue | Platform/Common/utils/utils.c:173-190 | the CRC of nothing is 0 and that of "123456789" is 0xCBF43926 |
| Crc32Words.CheckBits | Platform/Common/utils/utils.c:173-190 | the same for the bit-serial CRC: nothing gives 32 zeros |
| Crc32Words.PresetComplementsFirstWord | Platform/Common/utils/utils.c:177 | for four bytes or more the preset is the complement of the first 32 bits, starting from zeros (section 3.2.9 of IEEE 802.3) |
| Crc32Words.Residue | Platform/Common/utils/utils.c:173-190 | any message followed by the four bytes of its CRC has the CRC 0x2144DF1C |
| Crc32.FourByteErrorsDetected | Platform/Common/utils/utils.c:173-190 | strings of any length that differ within a window of four bytes have different CRCs |
| Crc8.TableIsEightSteps | Platform/Common/utils/utils.c:24-57 | each of the 256 table entries is its index run down eight bits with polynomial 0xE0 |
| Crc8.LookupIsEightSteps | Platform/Common/utils/utils.c:92-102 | a table lookup takes a byte in as eight single-bit steps |
| Crc8.CrcIsBitSerial | Platform/Common/utils/utils.c:78-102 | the table-driven register is the bit-serial one, for every byte string |
| Crc8.CalculateCrc8 | Platform/Common/utils/utils.c:92-102 | the loop folds the table over the bytes |
| Crc8.GetCrc8 | Platform/Common/utils/utils.c:78-90 | the register preset to 0 |
| Crc8.ChkCrc8 | Platform/Common/utils/utils.c:63-76 | succeeds exactly when the last byte is the CRC of those before it |
| Crc8.TrailerChecks | Platform/Common/utils/utils.c:63-90 | a message and one more byte run to 0 exactly when that byte is the CRC of the message |
| Crc8.OneByteErrorDetected | Platform/Common/utils/utils.c:78-90 | strings of any length that differ in one byte have different CRCs |
| TextCodec.StrToDec | Platform/Common/utils/utils.c:218-242 | for every buffer: an answer exactly if the scan ends inside it; success exactly for an optional minus and at least one digit; the int stored, which a lone minus or an empty text also changes |
| TextCodec.NumberIsExactIff | Platform/Common/utils/utils.c:233-239 | with ints that wrap, the int stored is the number written exactly when that fits an int |
| TextCodec.WhatIsANumber | Platform/Common/utils/utils.c:218-242 | what is taken for a number is one or more of the ten digits, with or without a minus in front |
| TextCodec.DecimalDigits | Platform/Common/utils/utils.c:209-216 | the ten digits are worth 0 to 9, and no other character is one |
| TextCodec.ValueOfOneMore | Platform/Common/utils/utils.c:233-237 | one digit more makes the number ten times as much and the digit |
| TextCodec.WrapIsCongruent | Platform/Common/utils/utils.c:233-239 | what is stored is the int congruent to the number modulo 2^32 |
| TextCodec.NoOverflowIff | Platform/Common/utils/utils.c:233-239 | no sum on the way leaves the int, so that nothing has to wrap, exactly when the digits spell less than 2^31; the number stored is then the one written |
| TextCodec.NumberOfDecimal | Platform/Common/utils/utils.c:218-242 | every non-negative int is read back from its decimal text |
| TextCodec.NumberOfNegative | Platform/Common/utils/utils.c:218-242 | so is every negative one |
| TextCodec.NoLeadingZero | Platform/Common/utils/utils.c:340-345 | what is printed has no leading zero |
| TextCodec.StrToIp | Platform/Common/utils/utils.c:302-338 | for every buffer: an answer exactly if it does not read past the end; the address stored, the answer 0 exactly for a stored address that is not 0, and what is left of the buffer |
| TextCodec.StaysInsideExactlyWhen | Platform/Common/utils/utils.c:314-331 | it stays inside exactly when a field with a dot behind it is no octet, or there are three dots and the last field ends inside |
| TextCodec.TwoFieldsRunOver | Platform/Common/utils/utils.c:314-326 | on "1.2" the search for a dot runs over the end of the text |
| TextCodec.BadFieldStaysInside | Platform/Common/utils/utils.c:314-326 | "a.b" is answered inside the buffer, with its dot left cut out |
| TextCodec.ReadField | Platform/Common/utils/utils.c:316-323 | a field is read with its dot cut out, and the dot put back unless the field is bad |
| TextCodec.ParsedExactlyWhen | Platform/Common/utils/utils.c:302-338 | an address comes out exactly when all four fields are octets, the first on top |
| TextCodec.RestoredExactlyWhen | Platform/Common/utils/utils.c:314-326 | the buffer is restored exactly when every field with a dot behind it is an octet |
| TextCodec.CutJustThere | Platform/Common/utils/utils.c:314-326 | otherwise just the dot behind the first bad field is a NUL |
| TextCodec.IpToStr | Platform/Common/utils/utils.c:340-345 | the four bytes in decimal with dots, ended by a NUL, the rest of the buffer untouched |
| TextCodec.IpRoundTrip | Platform/Common/utils/utils.c:302-345 | every address comes back from its text and the buffer stays as printed |
| TextCodec.StrToHexArray | Platform/Common/utils/utils.c:279-300 | the pairs before the first bad one are stored and nothing else is touched; success exactly when all pairs are good and the string ends there |
| TextCodec.HexRoundTrip | Platform/Common/utils/utils.c:279-352 | every byte comes back from the digits printed for it, for arrays of any length |
| TextCodec.HexDigits | Platform/Common/utils/utils.c:244-255 | the hex digits of both cases are worth 0 to 15, no other character is one, and lower case is printed |
| TextCodec.TextOfPairs | Platform/Common/utils/utils.c:279-352 | printing what was read gives the string back in lower case |
| TextCodec.MacToStr | Platform/Common/utils/utils.c:348-352 | six bytes as twelve lower-case hex digits and a NUL |
| DlList.Init | Include/list.h:55-59 | an empty ring |
| DlList.Add | Include/list.h:71-77 | the item goes in behind the given node of the ring; only the links next to it change |
| DlList.AddFirst | Include/list.h:71-77 | behind the head it becomes the first |
| DlList.AddTail | Include/list.h:89-92 | the item becomes the last |
| DlList.Del | Include/list.h:103-109 | the ring closes behind the node, whose links are null; only the links next to it change |
| DlList.Empty | Include/list.h:121-124 | empty exactly when the ring holds nothing |
| DlList.Len | Include/list.h:135-142 | the walk ends and counts the nodes |
| DlList.ForEach | Include/list.h:213-216 | the next links spell the list |
| DlList.ForEachReverse | Include/list.h:249-252 | the prev links spell it from its end |
| DlList.ForEachSafe | Include/list.h:231-235 | a walk that deletes any of the nodes it visits visits each original node once, in order, and leaves just the others |
| DlList.RingDetermines | Include/list.h:20-23 | the links allow only one reading of what the list holds |
| DlList.WithoutMembers | Include/list.h:231-235 | the nodes left are those of the list that were not deleted |
| MemBooks.RunIsExact | Platform/Common/mem/wm_mem.c:61-402 | in every run the byte counter is the total cost of the blocks in use and the block counter their number, modulo 2^32 |
| MemBooks.MarkIsPeak | Platform/Common/mem/wm_mem.c:120-126 | while the blocks in use fit the address space, the high-water mark is the largest total there ever was and bounds the byte counter |
| MemBooks.RefundUndoesCharge | Platform/Common/mem/wm_mem.c:120-318 | giving back the block just taken restores the books, all but the mark |
| MemBooks.TotalOfOneLess | Platform/Common/mem/wm_mem.c:312-319 | what a release takes off the byte counter is what the block cost |
| MemBooks.WhatABlockCosts | Platform/Common/mem/wm_mem.c:120-319 | a block taken adds its length, its padding and eight bytes to the byte counter, a word wide, and given back takes them off; the mark follows |
| MemTrack.Moved | Platform/Common/mem/wm_mem.c:118-119 | moving a block between the lists keeps them disjoint and together the whole pool |
| MemTrack.Transfer | Platform/Common/mem/wm_mem.c:118-119 | a node leaves one list and ends the other |
| MemTrack.Find | Platform/Common/mem/wm_mem.c:305-311 | the first block in use with the address, or the head |
| MemTrack.Allocator.SetUp | Platform/Common/mem/wm_mem.c:71-88 | the first call puts all 600 blocks into the free list |
| MemTrack.Allocator.Alloc | Platform/Common/mem/wm_mem.c:61-171 | the first free block is charged and goes to the end of the used list; with no memory or no block nothing changes and NULL is returned |
| MemTrack.Allocator.Calloc | Platform/Common/mem/wm_mem.c:173-283 | the same for the product of its two sizes, a word wide |
| MemTrack.Allocator.Free | Platform/Common/mem/wm_mem.c:293-402 | a tracked address gives its block back; an untracked one changes nothing and frees nothing |

## Left out

- TimerSpec.ClockLosesAtMostRounding: asks that no report wraps, that no message comes later than the head is due, and that the queue answers a timeout after just the ticks asked for and none longer than 8589934 ms; otherwise the source loses time.
- TimerSpec.ClockGainsAtMostRounding: asks that no wait is cut short by the wrap of the tick product, because a longer one is (see `TimerSpec.LongTimeoutFiresEarly`).
- ParamStore.RunRefinesAtomicRegister: asks that nothing is written between an EIO answer and the next power-off, and that no record that changes something is written at count 65535, because the code does not keep the property otherwise (see `ParamStore.RetryLoads` and `ParamStore.CommitSurvivesRebootIff`).
- MemBooks.MarkIsPeak: asks that the blocks in use fit the address space, which the C library sees to.
- MemTrack.Allocator.Free: asks that something has been allocated before, because the code takes a semaphore that does not exist until then.
- TextCodec.StrToIp: what the code does once it has read past the buffer, with memory that is not its own.
- HwCrc.Reflect: widths above 32 shift by more than a word and mean nothing in C.
- The individual fields of the parameters: they are one value for each id, and the fields no id names are one more value; copying strings and the older record length are not modelled.
- The user defaults, the factory constants and the update mode of `tls_param_set`.
- The parameter lock and the semaphores: calls are sequential.
- The answers of `tls_param_init` when its own memory or semaphore cannot be had.
- Registers, bus access, busy-waits and interrupts; each unit is its mathematical effect.
- AES, DES, 3DES and RC4: they only load registers.
- The contents of allocated memory: header and trailer patterns, their checks on release, which only print, and that `mem_calloc_debug` does not clear what it returns.
- The realloc functions and the allocator of the build without DEBUG.
- Memory for a timer node or for a message is given or refused by the environment; the heap behind it is not modelled.
- `checksum`, `strtohex`, `string_to_ipaddr` and `gettimeofday`.
- Boot files and thin drivers around them.
