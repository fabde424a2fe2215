# A verified model of the STM32F4 UART bootloader

The repository holds a bootloader for the STM32F407, the application side of its serial protocol, and the Python
program that talks to both. This project models the logic of the three in Dafny and proves what they keep
together: that an update is atomic under power failures, what a lossy line can and cannot do to it, what the
hand-made CRCs detect, and that the DMA transmit path neither loses nor overwrites bytes.

`dafny verify dfyconfig.toml` verifies all of it.

## How it is built

Every component is there twice. A class or a method has the form of the C or Python code (fields that the code
updates, its loops, its branches), and its contract equates it with a function on values. The theorems are about
those functions and the runs they generate.

| module | models | main results |
|---|---|---|
| `Update`, `MainLoop`, `Answers`, `CrashSafety`, `UploadLimits`, `Witnesses` | the update loop of `update.c`; runs with resets between any two flash commands | the loop makes these runs, its answers packet by packet, crash atomicity, handshake order and address range, no unguarded wait, the exact limits of the transaction and runs that reach them |
| `Host`, `Delivery`, `Handshake`, `Interrupted`, `Completeness` | the sender of `bootloader.py`, and sender and device joined by a line that loses and damages | in-order delivery without duplicates and the exact condition for a commit, from reset on; the same with power cuts; the fault-free run |
| `Memory`, `FlashIo`, `Diagnostics` | flash cells, erase and program commands, `flash-io.c` | write-once streaming, the watchdog log as a history |
| `Crc`, `CrcTheory`, `Protocol` | the four CRC loops, polynomial division over bits, frames | one remainder for all loops, exact burst bounds for both CRCs, frame round trips |
| `RingBuffers`, `BlPacket`, `TxPath`, `PacketTx`, `Usart` | `ring-buffer.c`, the receive interrupts, the transmit queue and its DMA transfers | write law, frames drained wherever they wrap, conservation, a single owner and progress in every interleaving |
| `AppPacket` | the application's commands | parameters, firmware information and log requests end to end |
| `Stimer` | the software timer | periodic firing without drift |
| `Bytes` | bits, bytes, masks | mask as modulo, little-endian round trip |

A flash image is a sequence of 2^20 bytes; addresses are offsets from 0x08000000. Every sector erase and every
program command is one `FlashOp`, so a reset leaves the flash after some prefix of the commands issued. A reset
re-initialises every static and nothing else. A run (`CrashSafety.Run`) is any series of passes of the update
loop, passes cut short after k flash commands, and runs of the application that touch the parameter sector only.

### What the theorems assume

- Tick counts and byte counters are natural numbers: no wrap-around of the 32-bit tick counter.
- Crash atomicity (`CrashSafety.CrashAtomic`) is about disciplined runs, which ask three things; handshake order,
  the guarded waits and the untouched bootloader sector hold of every run, and the address range of every run with
  at most one upload per boot.
  - One upload per boot. The write offset in `flash-io.c` is a static that only a reset clears, while the counter
    in `update.c` restarts with every erase. `UploadLimits.CommitContents` says where a later upload lies and when
    its commit boots, `UploadLimits.SecondUploadIff` when it is the image after all.
  - A chunk does not put bytes into the application's first vector-table word unless it starts on it (flash offset
    0x8000, payload offset 0x4000). The host's 128-byte chunks satisfy this, which `Delivery.StepAllowed` proves.
    For any chunks in any run, `UploadLimits.BootableIff` says when the timeout starts a partial image,
    `UploadLimits.CutBootableIff` which resets do, and `UploadLimits.StraddledCommitIff` what the commit of an
    upload leaves whose word was not kept back; `UploadLimits.EarlyBootIff` singles out the first such chunk.
  - The announced size is at least 0x4004. `UploadLimits.CommitFaithfulIff` covers every size and every way to cut
    the image into chunks.
  The lemmas of `Witnesses` show, for each of these failures, a run from any power-on state that reaches it.
- Sender and device take turns: a round carries one frame and its reply. A reply that arrives after the script has
  stopped waiting for it (4 seconds in the upload, for instance) and is then taken for the answer to the next frame
  is outside the model.
- Damage to a frame is damage that the check bytes reveal, in both forms. Which damage they reveal is stated by the
  burst and parity theorems of `Protocol`. A reply reaches the script as the bytes sent, not at all, or with a burst
  of up to 16 bits or an odd number of bits flipped; that it is then refused is proved (`Host.HeardAck`).
- Of the transmit path: messages are no longer than the ring. Conservation also asks that the sends into the queue
  succeed, and that messages are not empty and find room.
- A packet is read from its buffer together with the memory behind it: `protocol_validate_packet` reads up to 261
  bytes because it believes the length byte, while the buffers hold 255 or 256. The model gives the buffer 261
  readable bytes of any contents.

### Where code and documentation part

- The memory layout in the repository's README puts the diagnostic area at 0x8002000. The code and the comment in
  `mem-blocks.h` put it at 0x08006000, and so does the model.
- The host program calls both of its CRCs "CRC-16-CCITT". Neither is: the generators are x^16 + 0x8005 and
  x^32 + 0xEDB88320, with zero initial value. The second is the reflected constant used unreflected, so it is x^5
  times a polynomial of degree 27, and its burst bound is 27, not 32.
- `FW_REP` looks like a repair for a lost chunk, but the device answers it with ACK and ignores it whenever any
  earlier chunk was stored. Only the first chunk can be repaired (`Delivery.CommitIff`, `Delivery.LostChunkIsFinal`).
- A request for the log is answered with one byte for each 32-bit word the search passes over, which is the first
  quarter of what was dumped (`Diagnostics.ReadsQuarter`).
- A parameter write of length 0 is acknowledged although `flash_io_write_params` refuses it: it returns 0, which
  equals the length asked for.
- A NACK cut short to three bytes passes the script's CRC test, because NACK ends in a zero byte, and then ends the
  script with a parse error (`Host.TruncatedNackRaises`).
- Writing parameters also erases the watchdog log, which shares the sector (`AppPacket.WriteErasesLog`).
- The initial value of the withheld word is 0x0000FFFF, not 0xFFFFFFFF, so the commit of an image of at most 0x4000
  bytes makes an empty application region bootable (`UploadLimits.CommitFaithfulIff`).

## Model

| member | source | states |
|---|---|---|
| CrashSafety.CrashAtomic | src/bl/update.c:119-156 | In every disciplined run with resets between any two flash commands, when the loop ends the application region is what the last completed update left (or what was there at power-on); as long as it differs from that it is not bootable; the bootloader's sector never changes |
| CrashSafety.CompletedUpdate | src/bl/update.c:146-150 | When the entry word is programmed, the accepted bytes number the announced size, and flash from 0x08004000 is exactly those bytes and blanks |
| CrashSafety.HandshakeOrder | src/bl/update.c:57-151 | In every run whatsoever, every erase follows sync, update request, device id and size acknowledged in that order, every programmed byte the erase request too, since boot or the idle loop; sectors 1 to 11 and addresses from 0x08004000 on |
| CrashSafety.ProgramsAfterHandshake | src/bl/update.c:57-151 | With at most one upload per boot, whatever its chunks and size, also every programmed address lies in [0x08004000, 0x08080000), the overshoot of the last chunk included |
| CrashSafety.BootloaderUntouched | src/shared/flash-io.c:91-128 | No run changes sector 0 |
| CrashSafety.ReachedByAny | src/bl/update.c:34-160 | The part of the invariant that every run keeps, disciplined or not |
| CrashSafety.NoUnguardedWait | src/bl/update.c:39-156 | In every waiting state that any run reaches the one-shot timeout is armed for 5000 or 10000 ticks after it was last started; the first pass past the deadline decides for the application or the idle loop, earlier passes keep waiting unless they commit |
| CrashSafety.AdvanceIffAcknowledged | src/bl/update.c:57-118 | A handshake state is left if and only if its request is acknowledged, the reset request excepted; otherwise nothing but the announced size changes |
| CrashSafety.Reached | src/bl/update.c:34-160 | The whole invariant (flash, last completed update, handshake history, timer) holds in every state a disciplined run reaches, from any flash contents |
| CrashSafety.EraseCut | src/shared/flash-io.c:91-99 | However far the partition erase gets, the application region is untouched or its entry word is blank, because sector 2 is the second to go |
| CrashSafety.WriteCut | src/shared/flash-io.c:101-115 | A chunk cut off after k bytes, wherever it begins, leaves the stream k bytes longer, the bytes kept back still blank |
| CrashSafety.CommitImage | src/shared/flash-io.c:123-128 | Programming the withheld word completes the image byte for byte if and only if it clears no bit of those word bytes that were not kept back |
| CrashSafety.PassShape | src/bl/update.c:39-156 | What a pass that erases, writes, commits or does nothing implies for the state before and after it |
| UploadLimits.CommitFaithfulIff | src/shared/flash-io.c:102-128 | For every announced size and every cut into chunks: the commit yields the accepted image if and only if the word programmed last fits what is there; up to 0x4000 bytes it never does and makes an empty region bootable; a word kept back as far as the image goes fits if and only if blanks followed it in its packet |
| UploadLimits.BootableIff | src/bl/update.c:119-156 | In every run, at every moment of every upload: the region is taken for an application if and only if the bytes of the upload in the entry word that were not kept back look like one, and the pass that finds the timeout run out starts it if and only if they do |
| UploadLimits.CutBootableIff | src/shared/flash-io.c:101-120 | In every run, for every chunk: a reset after k of its bytes leaves a bootable region if and only if what the upload and those bytes have put into the entry word looks like one |
| UploadLimits.EarlyBootIff | src/shared/flash-io.c:103-111 | For the chunk that follows a disciplined run: a reset after k of its bytes boots a partial image if and only if the bytes it put into the entry word by then look like one; such a k exists if and only if the chunk puts any byte there that is not 0xFF; aligned chunks put none |
| UploadLimits.StraddledCommitIff | src/shared/flash-io.c:102-128 | If a chunk straddled the start of the entry word, the commit clears the word's upper half: it is faithful if and only if that half was zero, and bootable if and only if the lower half is not |
| UploadLimits.CommitContents | src/shared/flash-io.c:102-128 | Any commit in any run: outside the entry word the partition holds blanks for what was written before its erase, the payload, and blanks; the entry word is given byte by byte, and the region is bootable if and only if it looks like a vector table |
| UploadLimits.SecondUploadIff | src/shared/flash-io.c:102-113 | In every run whose writes stay within the flash: the committed partition is the payload and blanks if and only if the withheld word fits and nothing had been written between reset and erase, or the payload is all blank |
| UploadLimits.RecoveryId | src/shared/flash-io.c:78-99 | After a reset inside the erase the id of the partition is blank from the second sector on, and as before up to the first; after k bytes of a chunk it is what the upload has at its place by then |
| UploadLimits.UploadOffsetIff | src/shared/flash-io.c:102-113 | On an erased partition a chunk lies at the static offset with blanks around it, and reaches the first cell if and only if nothing was written since reset |
| Witnesses.ShortImageCommits | src/shared/flash-io.c:84-89 | From every power-on state a disciplined run leads to the commit of a one-byte image, which is bootable and not the image |
| Witnesses.StraddlingChunkBoots | src/shared/flash-io.c:103-111 | From every power-on state a disciplined run leads to a straddling chunk within which a reset boots the partial image |
| Witnesses.BlankStraddleBoots | src/shared/flash-io.c:103-111 | From every power-on state: a straddling chunk that exposes nothing, followed by a chunk within which a reset boots the partial image |
| Witnesses.StraddledImageCommits | src/shared/flash-io.c:123-128 | From every power-on state a run leads to the commit of a straddled image, bootable and not what was accepted |
| Witnesses.SecondUploadCommits | src/shared/flash-io.c:102-113 | From every power-on state a run gives up one upload and commits a second in the same boot, displaced |
| Update.UpdateMachine.constructor | src/bl/update.c:21-38 | After reset all statics have their initial values, the timeout runs for 5 s and the mailbox is empty |
| Update.UpdateMachine.Handshake | src/bl/update.c:57-118 | The five handshake cases, with replies, timer and flash commands, are the transition function |
| Update.UpdateMachine.StoreChunk | src/bl/update.c:130-133 | A stored chunk is programmed, counted and acknowledged, and re-arms the timeout |
| Update.UpdateMachine.ReceiveUpdateCase | src/bl/update.c:119-151 | The receive case is the transition function, the commit included |
| Update.UpdateMachine.Dispatch | src/bl/update.c:43-159 | The whole switch is the transition function |
| Update.UpdateMachine.Pass | src/bl/update.c:39-160 | One pass empties the mailbox and does to statics, timer, flash, command log and serial output what Iterate says |
| Update.UpdateMachine.UpdateStateMachine | src/bl/update.c:34-163 | The loop makes one pass per observation and leaves before they are used up only at US_DONE; statics and flash are those after exactly the passes made, none of them from US_DONE |
| MainLoop.Bootloader | src/bl/update.c:34-163 | From reset with ordered ticks: statics and flash are those of the run of the passes made; if the loop ends at US_DONE the entry word is neither blank nor zero, and after a disciplined run the application is the last completed update's or the one before |
| MainLoop.PassesAreRun | src/bl/update.c:39-160 | Any passes made only while the state is not US_DONE are a feasible run with the same statics and flash |
| Answers.WokenIff | src/bl/update.c:44-56 | Any packet, looked at or not, takes the idle loop to the sync wait with a fresh 5-second timeout; nothing else does |
| Answers.SyncAnswered | src/bl/update.c:57-68 | ACK if and only if sync or reset request, NACK otherwise; only the sync request moves the device |
| Answers.UpdateAnswered | src/bl/update.c:69-79 | ACK if and only if update request, silence otherwise |
| Answers.IdAnswered | src/bl/update.c:80-91 | ACK if and only if id check with the id in the partition, NACK otherwise |
| Answers.SizeAnswered | src/bl/update.c:92-105 | ACK if and only if a size between 1 and 0x78000, read with the least significant byte first, and then the upload is measured by exactly that; NACK otherwise |
| Answers.EraseAnswered | src/bl/update.c:106-118 | ACK, erase and a fresh 10-second timeout if and only if erase request, silence otherwise |
| Answers.ChunkAnswered | src/bl/update.c:127-145 | ACK if and only if new or repeated chunk; stored if and only if new, or repeated with nothing stored since the erase; NACK otherwise |
| Answers.LatePass | src/bl/update.c:40-41 | The pass that finds the timeout run out answers nothing, even to a packet it takes, and goes to the application if and only if the entry word is neither blank nor zero |
| Answers.QuietPass | src/bl/update.c:127-150 | Without a packet, or with no bytes missing, the device is silent, and commits if and only if the count equals the announced size |
| Delivery.LossyDelivery | src/bl/update.c:127-149 | At any time the bytes written are the chunks whose first transmission was heard (the first chunk: any), in file order, none twice; the application region is replaced only by the whole file |
| Delivery.CommitIff | src/bl/update.c:135-150 | In a pass that does not time out the entry word is programmed if and only if every chunk was marked as heard, and then flash is the file |
| Delivery.LostChunkIsFinal | bootloader.py:252-279 | Once a chunk other than the first was missed at its first transmission, no continuation replaces the application |
| Handshake.UploadStarts | bootloader.py:126-242 | However lossy the handshake from reset, the exchange that takes the sender into the upload leaves the device with a partition just erased and this file's size announced |
| Handshake.LossyUpdate | bootloader.py:126-284 | LossyDelivery for whole runs, from reset and the start of the script |
| Handshake.CommitFromReset | bootloader.py:126-284 | CommitIff for whole runs, from reset and the start of the script |
| Handshake.LostChunkDecides | bootloader.py:126-284 | LostChunkIsFinal for whole runs |
| Interrupted.OldOrNew | src/bl/update.c:34-160 | One run of the script over a lossy line, with power cuts between any two flash commands and the application running in between: whatever the device starts is the old application or the whole file, the file only if every chunk was heard |
| Interrupted.HappeningKeeps | src/bl/update.c:34-160 | The joint invariant survives rounds, resets inside a round and runs of the application |
| Handshake.ShakeStep | src/bl/update.c:57-118 | The joint invariant of the handshake: the device waits for the sender's request, is one ahead unheard, or has given up |
| Completeness.LostChunkHappens | bootloader.py:252-279 | From every power-on state with a matching id a possible run enters the upload and loses the second chunk |
| Delivery.StepKeeps | bootloader.py:243-284 | The joint invariant of sender, device and line survives every exchange and every idle pass, whatever is lost or damaged |
| Delivery.StepAllowed | bootloader.py:252-267 | The host's chunks never violate the alignment, size and single-upload conditions of crash safety |
| Delivery.SelectAll | bootloader.py:254-256 | Selected chunks have the size of the file if and only if all were selected, and then they are the file |
| Delivery.MarksStay | src/bl/update.c:136-145 | No later step changes whether a chunk after the first counts as heard |
| Completeness.FaultFreeUpdate | bootloader.py:126-284 | For images of 0x4004 to 0x78000 bytes with matching device id and no loss or timeout: five exchanges, one per chunk and two passes leave flash equal to the image, and the application starts exactly when the entry word is neither blank nor zero |
| Completeness.FaultFreeRunExists | bootloader.py:126-284 | From every such start there is a run of that kind |
| Completeness.StageStep | src/bl/update.c:57-156 | Each exchange advances sender and device by exactly one stage, idle passes by none until the upload is in |
| Host.HostHandshake | bootloader.py:126-242 | The handshake loop sends the frames of the sender state machine: at most five tries a state, next state on ACK |
| Host.FirmwareUpload | bootloader.py:252-279 | The upload loop sends FW_NEW with the next chunk after an ACK and FW_REP with the same chunk otherwise, until the file ends or six tries in a row fail |
| Host.HostUpdate | bootloader.py:126-284 | All frames of a run, as a function of file, id and responses, up to a response that cannot be parsed |
| Host.HandshakePacket | bootloader.py:130-242 | The request of each handshake state, the size little-endian |
| Host.Hears | bootloader.py:270-279 | A response counts as ACK exactly when it is there, its CRC register ends at zero, it holds what its length byte announces and its tag is ACK; with the register at zero but bytes missing, parsing raises and ends the script |
| Host.FourByteAck | bootloader.py:269-272 | Of all four-byte responses exactly 04 00 98 03 is an acknowledgement |
| Host.DamagedAckRefused | bootloader.py:270 | A reply frame of any tag and length with a burst of up to 16 bits or an odd number of bits flipped, length byte apart, is refused |
| Host.HeardAck | bootloader.py:270-279 | Whatever the line makes of a reply, the script moves on if and only if it was ACK and came through, and never ends in a parse error |
| Host.TruncatedNackRaises | bootloader.py:270-271 | The first three bytes of NACK end the script |
| Host.FiveTries | bootloader.py:130-135 | Responses that are all refused give five equal requests, and no more |
| Host.ChunkTries | bootloader.py:252-267 | Responses that are all refused give one FW_NEW and five FW_REP of the same chunk, and no more |
| Host.AcceptedScript | bootloader.py:126-284 | Responses that are all accepted give the five requests and then the file's chunks of 128 bytes in order, each once |
| Host.ReplyPacketsAreFrames | src/bl/bl-packet.c:29-37 | The constant ACK and NACK packets carry the right check bytes |
| Host.AckRecognized | bootloader.py:270-276 | Of the device's replies the host accepts ACK and nothing else |
| Crc.Crc16Calculate | src/shared/crc16.c:4-29 | The loop computes the shift register over the message bits for x^16 + 0x8005; 0 for a null pointer |
| Crc.Crc32Calculate | src/shared/crc16.c:31-56 | The same for x^32 + 0xEDB88320 |
| Crc.HostCrc | bootloader.py:81-111 | The unbounded accumulator, masked at the end, is the same register, for any width and polynomial |
| Crc.HostShiftBits | bootloader.py:90-94 | One step of the accumulator moves its low w bits as one register step, whatever lies above them |
| Crc.SameGenerators | bootloader.py:81-97 | Host and device use the same two generators |
| CrcTheory.RegisterXor | src/shared/crc16.c:14-26 | The register is XOR-linear on messages of equal length |
| CrcTheory.RegisterIsRemainder | src/shared/crc16.c:14-26 | The register satisfies the division equation with an explicit quotient |
| CrcTheory.RemainderIff | src/shared/crc16.c:4-56 | A bit string is the remainder of polynomial division if and only if it is the register |
| CrcTheory.BurstIff | src/shared/crc16.c:4-29 | For a generator with constant term 1 an error of up to its degree plus one bits leaves the register zero if and only if it is zero or the generator |
| CrcTheory.DelayedRegister | src/shared/crc16.c:31-56 | With a generator h times x^z the register is h's over the message without its last z bits, then those bits |
| CrcTheory.DelayedBurstIff | src/shared/crc16.c:31-56 | The exact burst law for such generators |
| CrcTheory.Burst32Iff | src/shared/crc16.c:31-56 | An error within 28 bits passes the 32-bit CRC if and only if it is zero or the degree-27 factor at least 5 bits before the end |
| CrcTheory.Burst16Iff | src/shared/crc16.c:4-29 | An error within 17 bits passes the 16-bit CRC if and only if it is zero or the generator |
| CrcTheory.ParityKept | src/shared/crc16.c:4-29 | With a generator of odd parity the register has the parity of the bits consumed |
| Protocol.Crc32BurstDetection | src/shared/protocol.c:5-8 | A valid firmware frame of any length damaged within 28 bits, length byte apart, is accepted if and only if it is undamaged or damaged by the one pattern of 28 bits |
| Protocol.Crc32BurstPasses | src/shared/protocol.c:5-8 | 27 is tight: at every position with 5 bits behind it that pattern turns a valid frame into another valid one |
| Protocol.Crc16BurstDetection | src/shared/protocol.c:9-11 | Bursts of up to 16 bits are always rejected; of 17 bits only the generator passes |
| Protocol.Crc16OddDetection | src/shared/protocol.c:9-11 | Every odd number of flipped bits is rejected |
| Protocol.DamagedFrameRefused | src/shared/protocol.c:15-30 | A frame of any tag, data and form, damaged within these bounds, is extracted with the invalid tag, whatever follows it in memory |
| Protocol.ExtractIff | src/shared/protocol.c:15-40 | For any packet: the invalid tag if and only if the check fails or the tag byte is that; otherwise the tag byte, and offset and length from where the form puts them |
| Protocol.ValidIffMultiple | src/shared/protocol.c:5-13 | A frame is accepted if and only if it is a multiple of the generator |
| Protocol.FrameValid | src/shared/protocol.c:42-52 | Frames with the remainder in the zeroed slots divide without remainder |
| Protocol.FrameRoundTrip | src/shared/protocol.c:15-52 | For every tag, data and CRC form a frame validates, and extraction returns the tag with the length (PW, firmware) or the first two data bytes |
| Protocol.CreatePacket | src/shared/protocol.c:42-52 | The buffer holds the frame of the data already in it, the rest untouched |
| Protocol.ValidatePacket | src/shared/protocol.c:5-13 | Accepts exactly the frames with zero remainder, for either CRC |
| Protocol.ExtractPacketAttr | src/shared/protocol.c:15-40 | Tag, offset and length by form and tag, the invalid tag for a damaged frame |
| Protocol.HostCreatePacket | bootloader.py:113-124 | The host builds the same frames, in both CRC forms |
| TxPath.Conservation | src/app/packet.c:145-181 | In every interleaving and on each port: bytes sent, then what the slices in flight denote in the ring memory at that moment, are exactly the bytes queued, and all messages when no enqueue is under way |
| TxPath.SingleOwner | src/app/packet.c:145-156 | In every interleaving, room or not, exactly one of pending notification, packet_tx_task holding the token and running transfer exists; no transfer starts over another, the receive after a peek finds a slice, and a slice to be launched lies within the ring |
| TxPath.EverythingIsSent | src/app/packet.c:145-156 | Once the producer rests, the other steps can be taken in any order: one is possible until a number given by the state have been taken, and then every message handed over has been sent |
| TxPath.TaskInvKept | src/app/packet.c:145-234 | Every step keeps the token with one owner and the slices within the ring |
| TxPath.ShortMessagesConserved | src/app/packet.c:42-47 | Messages of 1 to 102 bytes need no further condition: the eight-slot queue alone guards the ring |
| TxPath.ShortFits | src/app/packet.c:42-47 | With eight queued slices and one in transit there is room for 102 more bytes |
| TxPath.StepKeeps | src/app/packet.c:145-234 | The invariant of rings, queue, token and transfer survives every step of producer, packet_tx_task, controller and interrupt |
| TxPath.InitialInv | src/app/os.c:19-36 | It holds at power-on, with the token posted at start-up |
| TxPath.TiledBytes | src/app/packet.c:166-178 | Slices that tile a stretch of the stream denote its bytes, across the wrap |
| PacketTx.Transmitter.EnqueueData | src/app/packet.c:158-181 | The message is in the named port's own ring from the tail on, queued as one slice or two, the other ring untouched; rings and queue end as the concurrent system does when the producer runs to completion |
| PacketTx.UninterruptedEnqueue | src/app/packet.c:158-181 | Run to completion, the producer steps of the concurrent system do what EnqueueData does |
| RingBuffers.MaskStep | src/shared/ring-buffer.c:12-34 | Masking with len - 1 is counting modulo len when len is a power of two |
| RingBuffers.SpanWritten | src/shared/ring-buffer.c:24-34 | Write law: writing src leaves the last (count + size of src) mod len bytes of old contents and src |
| RingBuffers.AppendBelowCapacity | src/shared/ring-buffer.c:61-72 | Below len that is a plain append |
| RingBuffers.RingBuffer.constructor | src/shared/ring-buffer.c:3-8 | A ring over the given storage, empty |
| RingBuffers.RingBuffer.Empty | src/shared/ring-buffer.c:10 | Empty exactly when there are no contents |
| RingBuffers.RingBuffer.Capacity | src/shared/ring-buffer.c:36-44 | len minus the number of bytes held, in every state |
| RingBuffers.RingBuffer.Read | src/shared/ring-buffer.c:12-22 | Takes the first byte, or reports that there is none |
| RingBuffers.RingBuffer.Write | src/shared/ring-buffer.c:24-34 | Appends; filling the last cell makes the ring look empty |
| RingBuffers.RingBuffer.ReadChunk | src/shared/ring-buffer.c:46-59 | Moves as many bytes as there are, up to size, to the destination, and removes them |
| RingBuffers.RingBuffer.WriteChunk | src/shared/ring-buffer.c:61-72 | The write law, and every cell of the new memory |
| BlPacket.Receiver.Drain | src/bl/bl-packet.c:48-67 | After the idle interrupt the frame is at the front of the packet buffer, wherever it wrapped, and head equals tail |
| BlPacket.Mailbox.FrameReceived | src/bl/bl-packet.c:48-67 | A frame of any length: its last (length mod 256) bytes reach the packet buffer and the flag goes up for its port; the port's own ring took it, the other is untouched |
| BlPacket.Mailbox.Received | src/bl/bl-packet.c:39-46 | A packet is handed out once |
| BlPacket.Mailbox.ReceiveRun | src/bl/bl-packet.c:39-67 | Any run of frames of 1 to 255 bytes on either port comes out as it went in |
| BlPacket.MaskedLengthIsCount | src/bl/bl-packet.c:48-67 | The masked 32-bit difference of the indices is the number of bytes in the ring |
| BlPacket.WholeFrameIff | src/shared/drv-usart-dma.c:179-181 | A frame survives the 256-byte DMA ring if and only if it is shorter than it |
| AppPacket.ParametersEndToEnd | src/app/packet.c:68-80 | After any commands a granted PR is answered by one frame the host accepts, with the requested slice of the latest accepted PW, 0xFF beyond its length; bootloader and application are unchanged |
| AppPacket.FirmwareInfoEndToEnd | src/app/packet.c:81-87 | A granted FIR answers with the firmware information as it was before any commands |
| AppPacket.WriteResult | src/shared/flash-io.c:20-36 | A parameter write leaves the data and blanks in the whole sector and nothing else changed |
| AppPacket.WriteErasesLog | src/shared/flash-io.c:29 | An accepted write leaves the watchdog log empty |
| AppPacket.CommandsStayInParamsSector | src/app/packet.c:65-114 | The flash commands behind any packet are ones crash safety allows the application |
| AppPacket.RepliesAreShort | src/app/packet.c:65-114 | Every reply but the log's has 4 to 28 bytes, within what the transmit path carries unconditionally; the log's does if and only if the search passes over at most 98 words |
| AppPacket.DiagnosticEndToEnd | src/app/packet.c:101-105 | The answer to a request for the log fits the response buffer if and only if at most 504 values were dumped; it is then one frame the host accepts, with the first quarter of the log: all of it if and only if nothing was dumped |
| AppPacket.CommandTask.SendDiagnostic | src/app/packet.c:101-105 | DIAG, when the answer fits the response buffer: one frame with the bytes read |
| AppPacket.CommandTask.SendRegion | src/app/packet.c:68-74 | PR and FIR: one frame with the region's bytes, or NACK when out of range |
| AppPacket.CommandTask.StoreParams | src/app/packet.c:75-80 | PW: erase and program, acknowledged unless too long |
| AppPacket.CommandTask.Handle | src/app/packet.c:131-143 | One packet's replies and flash commands, by tag, NACK for a damaged or unknown one, and the serial line taken by LOCK and released by UNLOCK only; DIAG while the log fits the response buffer |
| AppPacket.ReplyIff | src/app/packet.c:65-114 | No reply if and only if the packet is ACK or NACK; the host accepts the reply if and only if the packet is RST, LOCK, UNLOCK, DIAG, a PW of at most 20 bytes, or a PR or FIR within bounds or empty; every other reply is 05 00 1E 00 |
| AppPacket.DamagedPacketRefused | src/app/packet.c:139-141 | A packet damaged within the bounds of its check bytes is answered with NACK and changes nothing |
| FlashIo.FlashDriver.ReadParams | src/shared/flash-io.c:11-18 | Copies the slice of the parameters, or nothing when out of range |
| FlashIo.FlashDriver.ReadFwInfo | src/shared/flash-io.c:38-45 | The same for the firmware information |
| FlashIo.FlashDriver.WriteParams | src/shared/flash-io.c:20-36 | The exact flash commands, none when the length is 0 or too large or the offset is not 0 |
| FlashIo.FlashDriver.CheckDevId | src/shared/flash-io.c:78-82 | Compares with the id in the partition that is about to be erased |
| FlashIo.FlashDriver.EraseFwPartition | src/shared/flash-io.c:91-99 | Erases sectors 1 to 11, one command each, in ascending order |
| FlashIo.FlashDriver.WriteNewFirmware | src/shared/flash-io.c:101-115 | Byte commands from the static offset on; at 0x4000 the first word is kept back and blanked in the packet buffer |
| FlashIo.FlashDriver.CheckFwIntegrity | src/shared/flash-io.c:117-120 | True exactly when the entry word is neither blank nor zero |
| FlashIo.FlashDriver.WriteMainEntry | src/shared/flash-io.c:123-128 | Programs the word that was kept back |
| Memory.BytewisePrefix | src/shared/flash-io.c:109-111 | A reset between two bytes leaves the flash with a shorter run programmed |
| Memory.EraseOpsPrefix | src/shared/flash-io.c:93-95 | A reset between two sector erases leaves a contiguous erased area |
| Memory.OverlayOnBlank | src/shared/flash-io.c:109-111 | On blank cells programming stores the data and disturbs no other cell |
| Diagnostics.Watchdog.Dump | src/shared/flash-io.c:57-76 | The search ends, the value is appended to the log unless all 4096 slots are taken, and nothing outside the area changes |
| Diagnostics.LogGrows | src/shared/flash-io.c:62-66 | Programming the first blank slot appends to the log |
| Diagnostics.LogIsHistory | src/shared/flash-io.c:57-76 | The list of values after a series of boots: all in order until 4096, then constant; Boots ties it to the flash |
| Diagnostics.Boots | src/shared/flash-io.c:57-76 | From an erased area on, after any series of boots the area in flash is the dumped values in order and blanks, and after 4096 entries it no longer changes |
| Diagnostics.ReadDiagnostic | src/shared/flash-io.c:47-55 | Copies as many bytes as 32-bit words are passed over before one with a blank lower half |
| Diagnostics.WordsOfLog | src/shared/flash-io.c:47-55 | The search passes over half as many words as values were dumped, rounded up, and what it reads fits a response if and only if there are at most 504 |
| Diagnostics.ReadsQuarter | src/shared/flash-io.c:47-55 | Of a log of n values the first (n+1)/2 bytes are read, of 2n |
| Stimer.StimerT.constructor | src/bl/stimer.c:25-30 | A started timer |
| Stimer.StimerT.ReloadAt | src/bl/stimer.c:33-35 | Moves the deadline unless the timer has elapsed |
| Stimer.StimerT.PingAt | src/bl/stimer.c:38-51 | Elapses once past the deadline, a periodic one again each period, with the lateness taken off |
| Stimer.PeriodicTimer | src/bl/stimer.c:38-51 | The k-th firing moves the deadline to start + (k+1) periods; there are never more firings than whole periods, and as many once a ping finds nothing due |
| Stimer.ReloadIff | src/bl/stimer.c:33-51 | An elapsed timer neither fires nor moves, reloaded or not; before that a reload moves the deadline and nothing else |
| Stimer.OneShotTimer | src/bl/stimer.c:38-51 | A one-shot timer fires once, at the first ping not before its deadline, and never again |
| Bytes.MaskIsMod | src/shared/ring-buffer.c:19 | Masking with 2^k - 1 is the remainder modulo 2^k |

## Left out

- CrashSafety.CrashAtomic: asks for at most one upload per boot, aligned chunks and an image of at least 0x4004 bytes, because the code does not keep the property otherwise; UploadLimits states exactly how it fails.
- Completeness.FaultFreeUpdate: starts from a device whose id matches; after an interrupted update it need not, because the id lies in the partition being erased, and UploadLimits.RecoveryId says what it is then.
- Delivery.LossyDelivery: takes damage to be damage the check bytes reveal, in both CRC forms; which damage that is, Protocol states separately. A reply cut short to some of its bytes is in Host.HostUpdate, not in the joint model.
- CrashSafety.NoUnguardedWait: leaves out the wrap-around of the tick counter.
- AppPacket.CommandTask.Handle: leaves out a DIAG request after more than 504 dumped values, which writes past the end of the response buffer, and the core reset that follows the acknowledged reset request.
- AppPacket.CommandTask.SendDiagnostic: the same overrun of the response buffer is left out.
- Diagnostics.ReadDiagnostic: leaves out a search that runs out of the area (from 4095 values on) and a copy past the end of its buffer.
- TxPath.SingleOwner: messages longer than the 1024-byte ring are not modelled.
- TxPath.Conservation: assumes that the sends into the queue succeed; with a full queue the code drops the slice after two ticks. One producer at a time, as in the application.
- PacketTx.Transmitter.EnqueueData: is the uninterrupted call; the interleavings are those of the step system of TxPath, not of imperative code.
- BlPacket.Mailbox.ReceiveRun: each frame is taken before the next one arrives; an interrupt that overwrites the packet buffer while it is being processed is not modelled.
- os_check_for_failure and the watchdog's feeding: nothing in the tree sets the bits it looks for.
- The failure branches after flash functions that always report success are not reachable and not modelled.
- update_refresh_indicators, the blink timer and all LED output; printing, menus, progress text and the final success message of the host, its parameter printing and param.txt.
- stimer_delay, a blocking wait on the tick counter.
- jump_to_app, the vector-table relocation and the memory set-up: the model ends in the state in which the jump happens.
- Clock, GPIO, USART and DMA registers, linker scripts and makefiles; of the DMA driver only the buffer tail formula and the offset and length of a transfer are modelled.
- FreeRTOS and libopencm3 internals: a bounded queue, one notification bit, and erase, program and read on a flash array stand for them. sizeof(vector_table_t) comes from libopencm3, which is not part of this model; no result depends on its value.
- A chunk write past the end of the flash array: cells beyond it do not exist in the model, and no disciplined run reaches them.
