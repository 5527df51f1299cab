# Verified models of PetraOS

PetraOS is a kernel written in Rust. This project models the parts of it whose correctness is hard to see from the
code, and proves what those parts are for.

- **Ciphers and hashes.** `PolyLimbs.dfy` and `Poly1305.dfy` carry Poly1305 on five 26-bit limbs, with every product,
  sum and cast bounded, down to the one-time authenticator of section 2.5 of RFC 8439. `ChaCha20.dfy` and `Aead.dfy`
  build the stream cipher and the AEAD of sections 2.4, 2.6 and 2.8, and `WireGuard.dfy` the data packets that use
  it. `Sha256.dfy` and `Crc32c.dfy` relate streaming and table-driven code to padding-then-folding (FIPS 180-4) and to
  polynomial division (section 12.1 of RFC 3720).
- **Queues.** `RingBuffer.dfy` interleaves the individual loads and stores of one producer and one consumer.
  `RingOverwrite.dfy` does the same for a producer that overwrites, which makes it a second consumer.
  `Pipe.dfy` interleaves any number of readers, writers, opens and drops, one locked section at a time. `Evdev.dfy` is
  the input event ring with its overflow marker. `Futex.dfy` and `Robust.dfy` are the wait table and the walk over
  the robust list of a dying thread, on any user memory.
- **Time.** `Clocksource.dfy` is the `mult`/`shift` search and the manager that accumulates, wraps and switches.
- **Signals.** `Signals.dfy` is the signal set and the pending queue, `SignalFrame.dfy` the frame on the user stack byte
  by byte, `Thread.dfy` delivery, the AST flag and `rt_sigreturn`, `Process.dfy` the threads of a process and the
  signals sent to it, and `AstRace.dfy` the flag again with the locked sections of senders and of `handle_ast`
  interleaved.
- **Structures.** `Cgroup.dfy` is the cgroup v2 hierarchy and `CgroupRace.dfy` its migrations by locked sections,
  `Cpio.dfy` the newc archive reader, `Loader.dfy` the image layout of kernel modules.

`Words.dfy` holds machine words (32 and 64 bits, wrapping written out), bitwise operators and little-endian byte
strings; `Buffers.dfy` holds byte buffers. Code that updates state in place is a class or a method on arrays, and each
such method is proved against a function; theorems about runs are about those functions.

## Model

| member | source | states |
|---|---|---|
| `PolyLimbs.Products` | petra/src/crypto/cipher/poly1305.rs:61-91 | the five columns of h·r computed in u64 are within the bounds the carry chain needs, no product or sum wraps, and their value is h·r modulo 2^130 - 5 |
| `PolyLimbs.Carry` | petra/src/crypto/cipher/poly1305.rs:93-116 | the lazy carry chain loses nothing: the limbs it leaves are reduced (h0, h2, h3, h4 below 2^26, h1 below 2^26 + 64) and congruent to the columns modulo 2^130 - 5 |
| `PolyLimbs.ProductValue` | petra/src/crypto/cipher/poly1305.rs:61-91 | folding the top limbs back with the factor 5 keeps the product's value modulo 2^130 - 5, for all integers |
| `PolyLimbs.CarryPass` | petra/src/crypto/cipher/poly1305.rs:171-192 | the final carry pass gives limbs below 2^26 with the same value modulo 2^130 - 5 |
| `PolyLimbs.Select` | petra/src/crypto/cipher/poly1305.rs:194-221 | the branch-free choice between h and h + 5 - 2^130 yields exactly the residue modulo 2^130 - 5 |
| `PolyLimbs.Pack` | petra/src/crypto/cipher/poly1305.rs:223-227 | packing the limbs into four words keeps the value modulo 2^128 |
| `PolyLimbs.AddPad` | petra/src/crypto/cipher/poly1305.rs:229-244 | adding the pad word by word gives the 16 little-endian bytes of the sum modulo 2^128 |
| `Poly1305Mac.LoadLimbs` | petra/src/crypto/cipher/poly1305.rs:73-78 | the overlapping shifted loads split a block into limbs whose value is the block's little-endian number |
| `Poly1305Mac.LoadKey` | petra/src/crypto/cipher/poly1305.rs:30-35 | the five shifted and masked loads give the clamped key of section 2.5 of RFC 8439 |
| `Poly1305Mac.AbsorbBlock` | petra/src/crypto/cipher/poly1305.rs:52-126 | one pass of the block loop keeps the limb bounds and takes the accumulator from a to (a + block)·r modulo 2^130 - 5 |
| `Poly1305Mac.FoldIsHorner` | petra/src/crypto/cipher/poly1305.rs:52-126 | folding whole blocks is evaluating the polynomial by Horner's rule |
| `Poly1305Mac.HornerAppend` | petra/src/crypto/cipher/poly1305.rs:129-160 | the polynomial of a concatenation continues from that of a whole number of blocks, which is what makes splitting an update harmless |
| `Poly1305Mac.LastBlock` | petra/src/crypto/cipher/poly1305.rs:162-169 | a short last block with a 1 byte and zeros, without the high bit, is absorbed as the specification absorbs the short chunk |
| `Poly1305Mac.Freeze` | petra/src/crypto/cipher/poly1305.rs:171-245 | from any reduced accumulator the tag is (residue + s) modulo 2^128 as 16 little-endian bytes |
| `Poly1305Mac.Poly1305.constructor` | petra/src/crypto/cipher/poly1305.rs:29-49 | a new authenticator has absorbed nothing and holds the clamped key and the pad |
| `Poly1305Mac.Poly1305.ProcessBlocks` | petra/src/crypto/cipher/poly1305.rs:52-126 | the loop over 16-byte blocks folds them, with the high bit unless final |
| `Poly1305Mac.Poly1305.Update` | petra/src/crypto/cipher/poly1305.rs:129-160 | whatever the buffer holds, an update absorbs exactly the bytes given, in order |
| `Poly1305Mac.Poly1305.Finalize` | petra/src/crypto/cipher/poly1305.rs:162-245 | the tag is the Poly1305 MAC of everything fed |
| `Poly1305Mac.MacOfChunks` | petra/src/crypto/cipher/poly1305.rs:129-252 | for every way of splitting a message into updates the tag is the MAC of the whole message |
| `ChaCha20.QuarterRoundInvertible` | petra/src/crypto/cipher/chacha20.rs:10-27 | the quarter round has an inverse, so it loses no state |
| `ChaCha20.QuarterRoundInPlace` | petra/src/crypto/cipher/chacha20.rs:10-27 | the in-place quarter round changes the four named words to the quarter round of them and no other word |
| `ChaCha20.DoubleRoundIsColumnsThenDiagonals` | petra/src/crypto/cipher/chacha20.rs:29-54 | the eight calls of one iteration are a column round followed by the same round on the diagonals |
| `ChaCha20.Block` | petra/src/crypto/cipher/chacha20.rs:29-54 | the block is the state plus ten double rounds of it, word by word, in little-endian bytes |
| `ChaCha20.CryptInPlace` | petra/src/crypto/cipher/chacha20.rs:56-86 | in-place encryption is the exclusive or with the key stream, chunk by chunk, for every length and counter, the counter wrapping |
| `ChaCha20.CryptInvolution` | petra/src/crypto/cipher/chacha20.rs:56-86 | encrypting twice is the identity |
| `Aead.Poly1305Key` | petra/src/crypto/cipher/aead.rs:17-42 | the one-time key is the first half of the key stream block with counter 0 |
| `Aead.ComputeMac` | petra/src/crypto/cipher/aead.rs:44-62 | the tag is Poly1305 over the padded concatenation of section 2.8 of RFC 8439 |
| `Aead.MacDataInjective` | petra/src/crypto/cipher/aead.rs:44-62 | different pairs of associated data and ciphertext give different authenticated strings |
| `Aead.EncryptInPlace` | petra/src/crypto/cipher/aead.rs:64-75 | the buffer and the tag are those of the AEAD |
| `Aead.SameTag` | petra/src/crypto/cipher/aead.rs:87-94 | the accumulated difference is zero exactly when the tags are equal |
| `Aead.DecryptInPlace` | petra/src/crypto/cipher/aead.rs:77-99 | decryption succeeds exactly when the tag is right, and otherwise leaves the buffer alone |
| `Aead.OpenSeal` | petra/src/crypto/cipher/aead.rs:64-99 | decryption of an encryption succeeds and returns the plaintext, for every key, nonce, associated data and length |
| `WireGuard.DecodeEncode` | petra/src/net/wireguard.rs:79-177 | a packet built under a secret is accepted and opened to its payload under the same secret, and carries its counter |
| `WireGuard.CountersIncrease` | petra/src/net/wireguard.rs:139-177 | packets of one stream carry strictly increasing counters as long as the 64-bit counter does not wrap |
| `WireGuard.WireGuardDevice.Transmit` | petra/src/net/wireguard.rs:139-177 | a transmit queues the sealed packet under the next counter, and fails without effect when the device is down or has no peer |
| `WireGuard.WireGuardDevice.ReceiveUdpPacket` | petra/src/net/wireguard.rs:79-117 | each packet is rejected, ignored or delivered as its type, length, peer and tag decide, and only a delivered one is queued |
| `WireGuard.WireGuardDevice.PopTransmitted` | petra/src/net/wireguard.rs:119-122 | packets leave in the order they were queued |
| `WireGuard.WireGuardDevice.Receive` | petra/src/net/wireguard.rs:184-193 | the oldest payload is handed over, cut to the buffer |
| `WireGuard.Tunnel` | petra/src/net/wireguard.rs:79-177 | every payload sent through one device arrives at the other unchanged and in order, counter wrap included |
| `WireGuard.EveryRunInOrder` | petra/src/net/wireguard.rs:79-193 | however transmits, pops, arrivals and reads interleave, what was sent is what was read, then what waits at the receiver, is in flight and waits at the sender, in order and unchanged |
| `WireGuard.Perform` | petra/src/net/wireguard.rs:79-193 | each of these events on the devices is that event of the system |
| `WireGuard.ReceiveTwice` | petra/src/net/wireguard.rs:79-117 | a packet received twice is delivered twice exactly when it is delivered at all |
| `WireGuard.ReplayCount` | petra/src/net/wireguard.rs:79-117 | any number of copies of a packet is delivered that many times |
| `RingBuffer.ProducerKeepsInv` | petra/src/utils/ring_buffer.rs:32-45 | each load and store of `push` keeps the ring invariant, whatever the consumer does in between |
| `RingBuffer.ConsumerKeepsInv` | petra/src/utils/ring_buffer.rs:57-70 | each load and store of `pop` keeps the ring invariant, whatever the producer does in between |
| `RingBuffer.EveryRunIsFifo` | petra/src/utils/ring_buffer.rs:32-70 | in every interleaving, counters wrapping, the popped bytes are a prefix of the pushed ones and at most CAP are in between |
| `RingBuffer.NoUnreadByteOverwritten` | petra/src/utils/ring_buffer.rs:32-45 | a slot store never hits the slot of an unread byte |
| `RingBuffer.LosesAByte` | petra/src/utils/ring_buffer.rs:32-70 | a run that delivers a wrong byte, for every capacity that does not divide 2^64 |
| `RingBuffer.FifoIffCapacityDivides` | petra/src/utils/ring_buffer.rs:32-70 | every run is first in, first out exactly when the capacity divides 2^64 |
| `RingBuffer.Ring.Push` | petra/src/utils/ring_buffer.rs:32-45 | a push appends unless the ring is full |
| `RingBuffer.Ring.Pop` | petra/src/utils/ring_buffer.rs:57-70 | a pop removes and returns the oldest byte |
| `RingBuffer.Ring.PushOverwrite` | petra/src/utils/ring_buffer.rs:47-55 | the newest CAP bytes are kept |
| `RingBuffer.Ring.Len` | petra/src/utils/ring_buffer.rs:72-77 | the wrapped difference of the counters is the number of bytes held |
| `RingOverwrite.StepInvIff` | petra/src/utils/ring_buffer.rs:47-70 | `push_overwrite` against a concurrent `pop`, one shared access at a time: a step keeps the ring within its capacity and the consumer's bytes right, in order and not repeated exactly when the consumer loads its slot before it is written over, stores its tail before more is in or promised than then fits, and the producer's own pop stores its tail before the consumer has gone past it |
| `RingOverwrite.RunInvIff` | petra/src/utils/ring_buffer.rs:47-70 | the interleavings that keep the ring right are exactly those in which every step is so |
| `RingOverwrite.SlotIntactIff` | petra/src/utils/ring_buffer.rs:47-70 | a slot holds a byte exactly until the byte CAP later is written |
| `RingOverwrite.ApartIsSafe` | petra/src/utils/ring_buffer.rs:47-70 | if neither side begins a pop while the other is in one, every step is safe |
| `RingOverwrite.Overfull` | petra/src/utils/ring_buffer.rs:47-70 | two overwrites of a full ring while the consumer holds its tail, then the consumer's store, leave CAP + 1 between the counters |
| `RingOverwrite.OverfullIsReached` | petra/src/utils/ring_buffer.rs:47-70 | a run from the empty ring that ends so, for every capacity |
| `Pipe.PollIsExact` | petra/src/fs/pipe.rs:128-246 | `poll` reports readable exactly when a nonblocking read would not return EAGAIN, writable exactly when a one-byte write would succeed, an error exactly when it would return EPIPE, and hang-up exactly when a read of the emptied pipe would be end of file or a write EPIPE |
| `Pipe.StepKeepsInv` | petra/src/fs/pipe.rs:101-301 | every open, drop, read, write section and return keeps the pipe invariant |
| `Pipe.NothingLost` | petra/src/fs/pipe.rs:101-301 | in every interleaving the bytes read followed by the buffer are the bytes accepted, the buffer stays within its capacity, and the counts are those of the live ends |
| `Pipe.WritesReportTheirPrefix` | petra/src/fs/pipe.rs:162-219 | a finished write has contributed exactly the prefix whose length it returned, and nothing on an error |
| `Pipe.SmallWritesAreAtomic` | petra/src/fs/pipe.rs:162-219 | a write of at most PIPE_BUF bytes has appended nothing, or exactly one chunk, which is all of its data, at a known place in the stream |
| `Pipe.PipeBuffer.ReadNow` | petra/src/fs/pipe.rs:128-160 | one locked section of `read`, its errors and what it copies |
| `Pipe.PipeBuffer.WriteNow` | petra/src/fs/pipe.rs:162-219 | one locked section of `write`, its errors and what it appends |
| `Pipe.PipeBuffer.Drop` | petra/src/fs/pipe.rs:101-119 | dropping an end takes it out of the counts it is in |
| `Pipe.PipeBuffer.Open` | petra/src/fs/pipe.rs:268-301 | opening an end adds it to the counts it belongs to |
| `Clocksource.CalcMultShift` | petra/src/time/clocksource.rs:86-105 | the loop returns the result of the downward search from 31, and (1, 0) for frequency 0 |
| `Clocksource.MultShiftIsBest` | petra/src/time/clocksource.rs:86-105 | for every nonzero frequency the shift is at least 2 and the largest up to 31 whose multiplier fits 32 bits, and mult·freq is within freq/2 of 10^9·2^shift |
| `Clocksource.OneSecondWithinOneNs` | petra/src/time/clocksource.rs:86-105 | for every frequency up to 2^32 one second of cycles converts to within 1 ns of a second |
| `Clocksource.ClocksourceManager.Accumulate` | petra/src/time/clocksource.rs:130-139 | the elapsed cycles are folded into the base and the latch moves to now |
| `Clocksource.ClocksourceManager.ReadMonotonicNs` | petra/src/time/clocksource.rs:141-153 | the reading is the base plus the scaled delta, or the jiffies before any clock is registered |
| `Clocksource.ClocksourceManager.Register` | petra/src/time/clocksource.rs:155-175 | a clock becomes active if none was or it rates higher, and is added unless that activation fails |
| `Clocksource.ClocksourceManager.SwitchTo` | petra/src/time/clocksource.rs:177-200 | time is accumulated before the switch, and a clock that fails to start leaves the old one active |
| `Clocksource.TrueDelta` | petra/src/time/clocksource.rs:130-153 | the masked wrapped difference is the true number of cycles if less than one counter period has passed |
| `Clocksource.StepKeeps` | petra/src/time/clocksource.rs:130-200 | every read, accumulation, registration and switch, failed ones included, keeps monotonicity and the error bound |
| `Clocksource.TimeNeverGoesBack` | petra/src/time/clocksource.rs:130-200 | over every run after the first registration no reading is below an earlier one |
| `Clocksource.ReadingIsClose` | petra/src/time/clocksource.rs:130-153 | a reading lags the exact scaled cycle count of the active clock by less than one nanosecond per accumulation and one for the reading |
| `Clocksource.FirstRegistrationStartsAtZero` | petra/src/time/clocksource.rs:147-200 | the first registration starts time at zero: what the jiffies answered before is not carried over |
| `Sha256.PaddingIsLeast` | petra/src/crypto/hash/sha256.rs:157-185 | the padding of section 5.1.1 of FIPS 180-4 fills whole blocks with the least number of zeros |
| `Sha256.BlocksAppend` | petra/src/crypto/hash/sha256.rs:138-155 | folding blocks continues across a concatenation of whole blocks |
| `Sha256.PaddingFits` | petra/src/crypto/hash/sha256.rs:157-185 | a tail below 56 bytes is padded within its block as the standard pads the message |
| `Sha256.PaddingSpills` | petra/src/crypto/hash/sha256.rs:157-185 | a tail of 56 bytes or more is padded over two blocks as the standard pads the message |
| `Sha256.LengthBytes` | petra/src/crypto/hash/sha256.rs:157-185 | the wrapped 64-bit bit count has the same eight bytes as the true one |
| `Sha256.Schedule` | petra/src/crypto/hash/sha256.rs:61-78 | the schedule array holds the message schedule of section 6.2 |
| `Sha256.CompressInPlace` | petra/src/crypto/hash/sha256.rs:61-115 | the in-place compression is the compression function of section 6.2 |
| `Sha256.Hasher.Update` | petra/src/crypto/hash/sha256.rs:138-155 | an update absorbs exactly the bytes given, and the buffer index stays below 64 between calls |
| `Sha256.Hasher.Finalize` | petra/src/crypto/hash/sha256.rs:157-190 | the digest is that of everything fed |
| `Sha256.DigestOfChunks` | petra/src/crypto/hash/sha256.rs:126-196 | for every way of splitting a message into updates the digest folds the compression over the padded message |
| `Crc32c.Table` | petra/src/crypto/hash/crc32c.rs:15-36 | entry i of the table is eight bit steps of i |
| `Crc32c.TableStep` | petra/src/crypto/hash/crc32c.rs:43-49 | one table look-up does eight bit steps |
| `Crc32c.Crc32c` | petra/src/crypto/hash/crc32c.rs:43-49 | the byte loop computes the bit-by-bit register |
| `Crc32c.Crc32cOne` | petra/src/crypto/hash/crc32c.rs:69-77 | the one-shot form starts from and finishes with all ones |
| `Crc32c.CrcChains` | petra/src/crypto/hash/crc32c.rs:43-49 | the register chains over concatenation |
| `Crc32c.CrcLinear` | petra/src/crypto/hash/crc32c.rs:43-49 | the register is linear: states and equally long messages may be combined by exclusive or before or after |
| `Crc32c.CrcIsSerial` | petra/src/crypto/hash/crc32c.rs:15-49 | the register is bit-serial division of the message's bits, lowest bit of each byte first |
| `Crc32c.CrcIsRemainder` | petra/src/crypto/hash/crc32c.rs:15-49 | with some quotient, the register is the remainder of the message polynomial divided by the Castagnoli polynomial |
| `Crc32c.RemainderIsUnique` | petra/src/crypto/hash/crc32c.rs:15-49 | no other register value is a remainder of that division |
| `Evdev.EvdevClient.Push` | petra/src/drivers/input/evdev.rs:103-120 | a push queues the event; at 64 queued events the oldest is lost first and the flag set; a revoked client takes nothing |
| `Evdev.EvdevClient.TryRead` | petra/src/drivers/input/evdev.rs:122-154 | a read delivers the marker first, then the oldest events, as many as fit; it fails without effect when revoked or when no event fits |
| `Evdev.ExpandRead` | petra/src/drivers/input/evdev.rs:122-154 | what a read delivers, each marker expanded to what it stands for, is what leaves the client |
| `Evdev.NoSilentLoss` | petra/src/drivers/input/evdev.rs:87-154 | over every run the pushed stream is the delivered one, each marker expanded to its own nonempty lost run, then the pending loss (nonempty exactly when the flag is set), then the queue, never more than 64 long |
| `Evdev.AvailableIsExact` | petra/src/drivers/input/evdev.rs:87-101 | `available` is exactly what a read of a large enough buffer returns |
| `Cpio.ParseHexOfHex` | petra/src/utils/cpio.rs:46-50 | parsing the eight hexadecimal digits of a 32-bit number gives it back |
| `Cpio.NextAdvances` | petra/src/utils/cpio.rs:55-152 | a successful step leaves a 4-aligned offset at least 110 bytes further |
| `Cpio.NextOnRecord` | petra/src/utils/cpio.rs:55-152 | at an aligned record the step yields its entry and moves exactly past it, whatever surrounds it |
| `Cpio.NextOnTrailer` | petra/src/utils/cpio.rs:55-152 | at a trailer iteration ends |
| `Cpio.RoundTrip` | petra/src/utils/cpio.rs:46-152 | parsing the newc form of any list of entries and a trailer, with anything after it, yields exactly that list and ends |
| `Cpio.PanicsOnEmptyName` | petra/src/utils/cpio.rs:98-104 | a step panics exactly on a readable header whose name size is zero |
| `Cpio.EmptyNamePanics` | petra/src/utils/cpio.rs:98-104 | such a header, with all numbers zero |
| `Cpio.CpioArchive.NextEntry` | petra/src/utils/cpio.rs:55-152 | the early returns decode the header field by field; the offset moves only on success, so an error is returned again by the next call |
| `Cpio.CpioArchive.Collect` | petra/src/utils/cpio.rs:52-152 | iterating up to the first outcome that is not an entry terminates on all input |
| `Futex.WakeTakesTheFirst` | petra/src/sync/futex.rs:91-112 | a wake takes exactly the first matching waiters up to the limit and leaves the later matches and all others in place |
| `Futex.WakeConserves` | petra/src/sync/futex.rs:91-112 | every waiter is either woken or still waiting, once |
| `Futex.WakeKeepsOrder` | petra/src/sync/futex.rs:91-112 | those still waiting keep their order |
| `Futex.FutexTable.WakeWaiters` | petra/src/sync/futex.rs:91-112 | the index loop over the waiter vector performs that wake and drops an emptied line |
| `Futex.FutexTable.WakeBitset` | petra/src/sync/futex.rs:119-128 | private waiters are woken before shared ones, and no more than the limit in all |
| `Futex.FutexTable.RemoveWaiter` | petra/src/sync/futex.rs:80-89 | a waiter that gave up is taken out and the others keep their order |
| `Futex.WithoutKeepsOthers` | petra/src/sync/futex.rs:80-89 | removing a waiter removes every entry of it and no other |
| `Futex.WithoutKeepsOrder` | petra/src/sync/futex.rs:80-89 | those who stay keep their order |
| `Robust.MarkedIsUnowned` | petra/src/sync/robust.rs:47-65 | a marked word no longer belongs to the dying thread, so it is not marked again |
| `Robust.WalkKeeps` | petra/src/sync/robust.rs:72-90 | from any point the walk visits at most 1024 nodes and marks exactly the owned words of those it visits |
| `Robust.ExitMarksExactly` | petra/src/sync/robust.rs:30-90 | on any memory, cyclic lists included, exactly the visited writable words the thread owned change, to OWNER_DIED with their WAITERS bit kept, and each of them is woken |
| `Robust.ExitWakesExactly` | petra/src/sync/robust.rs:30-90 | how often each address is woken, on any memory: never unless its word is aligned, mapped, the thread's and visited; once if it can also be written; at every visit if it cannot |
| `Robust.WokenAtMostOnce` | petra/src/sync/robust.rs:47-65 | no futex that can be written is woken twice |
| `Robust.StuckWokenTwice` | petra/src/sync/robust.rs:47-90 | a pending node that links to itself, with a word of the thread's that cannot be written, is woken twice |
| `Robust.UnwritableWokenTwice` | petra/src/sync/robust.rs:47-90 | a concrete memory with such a node |
| `Robust.Process.ExitRobustList` | petra/src/sync/robust.rs:30-90 | the loop performs that walk and wakes one waiter of each address in order |
| `Signals.AddExact` | petra/src/uapi/signal.rs:308-310 | `add` adds one signal and no other |
| `Signals.RemoveExact` | petra/src/uapi/signal.rs:312-314 | `remove` removes one signal and no other |
| `Signals.LowestUnmasked` | petra/src/uapi/signal.rs:356-364 | the search finds the lowest signal of the set that the mask does not hold, or that there is none |
| `Signals.PostIsPending` | petra/src/proc/signal.rs:89-97 | a posted signal is pending afterwards and no other signal's pending state changes; SIGCHLD and real-time signals are always queued |
| `Signals.EveryQueueIsCollapsed` | petra/src/proc/signal.rs:89-114 | in every queue that posts and takes can reach, each standard signal but SIGCHLD occurs at most once |
| `Signals.PendingExact` | petra/src/proc/signal.rs:125-131 | `pending_set` holds exactly the queued numbers |
| `Signals.TakeIsLowest` | petra/src/proc/signal.rs:100-114 | a take yields the signal that `pending_set().lowest_unmasked(mask)` names, the oldest entry of that number, leaves all others in place, and yields nothing exactly when that names none |
| `Signals.SigQueue.PostSignal` | petra/src/proc/signal.rs:89-97 | a repeated standard signal collapses onto the queued one, anything else is appended |
| `Signals.SigQueue.TakeUnmasked` | petra/src/proc/signal.rs:100-114 | the search loop removes that entry |
| `Signals.SigQueue.PendingSet` | petra/src/proc/signal.rs:125-131 | the loop builds the pending set |
| `SignalFrame.FieldsAt` | petra/src/arch/x86_64/signal.rs:444-528 | every field of the frame lies at its own offset, padding and reserved words are zero |
| `SignalFrame.ToBytes` | petra/src/arch/x86_64/signal.rs:505-528 | the field-by-field copies build that frame |
| `SignalFrame.EncodeSigInfo` | petra/src/arch/x86_64/signal.rs:480-496 | the field-by-field copies build the wire form of the `siginfo_t`, in its timer and its ordinary shape |
| `SignalFrame.FromBytes` | petra/src/arch/x86_64/signal.rs:531-592 | the reads decode the frame from those offsets |
| `SignalFrame.InfoRoundTrip` | petra/src/arch/x86_64/signal.rs:480-496 | decoding an encoded `siginfo_t` gives back what its shape carries |
| `SignalFrame.RoundTrip` | petra/src/arch/x86_64/signal.rs:505-592 | decoding an encoded frame gives back everything but the reserved words and the parts of the `siginfo_t` its shape leaves out |
| `SignalFrame.InverseIffCarriable` | petra/src/arch/x86_64/signal.rs:530-592 | `from_bytes` undoes `to_bytes` exactly when the reserved words and the unsent parts of the `siginfo_t` are zero |
| `SignalFrame.TimerAddressIsCut` | petra/src/arch/x86_64/signal.rs:485-488 | a timer frame whose address does not come back |
| `SignalFrame.ClearFlagsExact` | petra/src/arch/x86_64/signal.rs:190 | the captured EFLAGS differ in DF and TF only, which are clear |
| `SignalFrame.RestoreOfCapture` | petra/src/arch/x86_64/signal.rs:658-719 | capturing, encoding, decoding and restoring gives back all 18 registers, DF and TF cleared, and the mask; it fails exactly when rip or rsp fails `is_canonical` or rip is not executable |
| `SignalFrame.CanonicalIff` | petra/src/arch/x86_64/signal.rs:829-832 | `is_canonical` accepts every canonical address, and is the canonical form exactly where bit 47 agrees with the 16 bits it looks at |
| `SignalFrame.Bit47Ignored` | petra/src/arch/x86_64/signal.rs:829-832 | an address that is accepted and is not canonical |
| `SignalFrame.PlacedFits` | petra/src/arch/x86_64/signal.rs:798-819 | a placed frame ends at or below the limit and starts eight bytes into a 16-byte block |
| `SignalFrame.LargestIff` | petra/src/arch/x86_64/signal.rs:788-819 | it starts at the largest such address exactly when the limit is at most eight bytes into its block, or too low for any frame |
| `SignalFrame.NotLargest` | petra/src/arch/x86_64/signal.rs:788-819 | a limit for which the address chosen is 16 bytes below the largest |
| `SignalFrame.FrameAddrSafe` | petra/src/arch/x86_64/signal.rs:314-385 | a frame lies wholly on the alternate stack, or wholly below the stack pointer and above the first page, and the handler's pointers fall on its `ucontext` and `siginfo_t` |
| `ThreadSignals.EffectiveMaskExact` | petra/src/uapi/signal.rs:438-446 | a handler runs with its `sa_mask` blocked, and its own signal unless SA_NODEFER |
| `ThreadSignals.AstFlagExact` | petra/src/proc/thread.rs:271-310 | entered with the flag set, `handle_ast` leaves it set exactly when the thread or process queue holds a signal unmasked under the new mask, and takes none exactly when none was deliverable |
| `ThreadSignals.StepArmedIff` | petra/src/syscall/signals/mask.rs:71-83 | whole calls as steps: a step leaves a thread with a deliverable signal and no flag exactly when it is a process-directed post that arms another thread, or a mask set without a look at the queues, and uncovers a signal behind a clear flag |
| `ThreadSignals.RunArmedIff` | petra/src/proc/thread.rs:260-480 | a run of posts, deliveries, returns, mask changes and user code is armed throughout exactly when each step is of another kind or meets that condition |
| `ProcessSignals.WakeOneThread` | petra/src/proc/signal.rs:201-220 | the loop arms the first thread that is not being killed and no other, whatever its mask |
| `ProcessSignals.FirstLive` | petra/src/proc/signal.rs:201-220 | that thread is the first without KILL_PENDING, or there is none |
| `ProcessSignals.SentArmedIff` | petra/src/proc/signal.rs:194-220 | a signal sent to a process leaves every thread armed exactly when each thread other than the first live one is armed already or masks it |
| `ProcessSignals.ActArmedIff` | petra/src/proc/signal.rs:149-220 | the same exact condition for every act: sends, kills, and the steps of any thread on the shared queue |
| `ProcessSignals.EveryRunArmedIff` | petra/src/proc/signal.rs:149-220 | over any run of any number of threads, no thread is ever without the flag for a signal it could take exactly when every act meets the condition |
| `ProcessSignals.SecondThreadStranded` | petra/src/proc/signal.rs:201-220 | two threads of which the first masks SIGUSR1: after a send and the first thread's look in vain, the second could take the signal and has no flag |
| `AstRace.MoveInvIff` | petra/src/proc/thread.rs:260-310 | locked section by locked section, with senders, other threads and mask changes in between, a move keeps "a signal not yet seen has the flag or a sender on its way to it" exactly when it is safe: the last sender does not arm between a look in vain and the clearing after it, a signal for another thread's flag does not find this one unarmed and willing, and no mask set without a look uncovers a signal |
| `AstRace.NothingStrandedIff` | petra/src/proc/thread.rs:260-310 | in any interleaving that holds throughout exactly when every move is safe, and then a deliverable signal has the flag whenever the thread is out of `handle_ast` and no sender is on its way |
| `AstRace.ArmInWindowStrands` | petra/src/proc/thread.rs:291-299 | a sender that queues and arms inside the window leaves its signal without the flag if and only if the mask lets the signal through |
| `AstRace.WindowIsReached` | petra/src/proc/thread.rs:271-299 | the window is reached from every state with the flag set and nothing deliverable |
| `ThreadSignals.HandlerSees` | petra/src/proc/thread.rs:371-441 | on entry the handler's address, signal number, return address and, with SA_SIGINFO, the `siginfo_t` and interrupted mask are where the ABI says |
| `ThreadSignals.ReturnThroughFrame` | petra/src/proc/thread.rs:457-480 | `rt_sigreturn` through an intact frame restores mask and registers and re-arms the flag, or returns EFAULT without effect |
| `ThreadSignals.HandlerIsTransparent` | petra/src/proc/thread.rs:315-480 | from any delivery, through any run of posts, mask changes, user code and changes of memory, mappings, dispositions and alternate stack that enters no other handler and leaves the frame alone, `rt_sigreturn` restores the mask exactly and all 18 registers but DF and TF |
| `ThreadSignals.ReturnedMeansEfault` | petra/src/proc/thread.rs:457-480 | only one frame is recorded: from a successful return on, through any run that enters no handler, a return is EFAULT and changes nothing |
| `ThreadSignals.OuterReturnIff` | petra/src/proc/thread.rs:412-480 | an outer handler whose inner handlers have all returned can return exactly when there were none, its frame was left alone and its addresses can be returned to; otherwise EFAULT |
| `ThreadSignals.NestedReturnFails` | petra/src/proc/thread.rs:412-480 | a handler interrupted by another: the inner return gives the outer its registers and mask back, and the outer return is then EFAULT whatever happens in between short of a third handler |
| `ThreadSignals.Thread.PostSignal` | petra/src/proc/thread.rs:260-263 | a thread-directed post queues and arms |
| `ThreadSignals.Thread.BuildHandlerFrame` | petra/src/proc/thread.rs:371-408 | the frame is written at its address, or nothing happens |
| `ThreadSignals.Thread.EnterHandler` | petra/src/proc/thread.rs:412-441 | registers, masks, recorded frame, flags and a one-shot disposition change as the handler's entry requires |
| `ThreadSignals.Thread.DeliverSignal` | petra/src/proc/thread.rs:315-347 | the disposition decides between discarding, entering a handler and the default action |
| `ThreadSignals.Thread.HandleAst` | petra/src/proc/thread.rs:271-310 | at most one signal is taken, the thread's own queue first, and the flag is recomputed |
| `ThreadSignals.Thread.ReturnFromHandler` | petra/src/proc/thread.rs:457-480 | the recorded frame is read, checked and applied to the registers about to run |
| `Cgroup.EveryRunPartitions` | petra/src/fs/cgroup/tree.rs:104-334 | after every run of mkdir, rmdir and migrations, a live process is listed by exactly one attached group, and no other attached group has that group's path |
| `Cgroup.StepKeepsInv` | petra/src/fs/cgroup/node.rs:76-118 | every operation keeps links, parents and names consistent and attached groups disjoint |
| `Cgroup.MovedKeepsInv` | petra/src/fs/cgroup/tree.rs:294-309 | a migration leaves the process in the target alone among attached groups |
| `Cgroup.NewGroup` | petra/src/fs/cgroup/node.rs:76-102 | a new group is attached exactly when its parent is |
| `Cgroup.UnlinkedUnder` | petra/src/fs/cgroup/node.rs:104-118 | removing a group detaches that group and no other |
| `Cgroup.PathsDiffer` | petra/src/fs/cgroup/tree.rs:104-141 | attached groups have different paths |
| `Cgroup.CgroupTree.MakeDir` | petra/src/fs/cgroup/node.rs:76-102 | a directory is made, or the first failing check names the error and nothing changes |
| `Cgroup.CgroupTree.RemoveDir` | petra/src/fs/cgroup/node.rs:104-118 | an empty group is unlinked; a missing or busy one is an error without effect |
| `Cgroup.CgroupTree.RemovePid` | petra/src/fs/cgroup/tree.rs:303-309 | the recursion removes the process from every group below the node and from no other, in whatever order it visits them |
| `Cgroup.CgroupTree.MoveProcessTo` | petra/src/fs/cgroup/tree.rs:294-301 | a migration removes the process everywhere reachable and inserts it in the target unless that is the root |
| `CgroupRace.MoveInvIff` | petra/src/fs/cgroup/tree.rs:294-309 | removal and insertion as two sections with anything in between: attached groups stay disjoint exactly when at the insertion no other attached group holds the process, unless the target is the root or no longer attached |
| `CgroupRace.ApartKeeps` | petra/src/fs/cgroup/tree.rs:294-309 | while no process is migrated twice at once, every section of any operation keeps attached groups disjoint and processes in flight in none |
| `CgroupRace.TwoMigrations` | petra/src/fs/cgroup/tree.rs:294-309 | two migrations of one process with both removals first leave it in both groups |
| `Cgroup.CgroupTree.CollectPids` | petra/src/fs/cgroup/tree.rs:275-291 | the recursion gathers exactly the processes of the groups strictly below the node |
| `Cgroup.CgroupTree.Populated` | petra/src/fs/cgroup/tree.rs:183-199 | a non-root group is populated exactly when its subtree holds a process, the root exactly when one is live |
| `Cgroup.CgroupTree.CgroupPath` | petra/src/fs/cgroup/tree.rs:104-141 | the walk to the root and back builds the group's path |
| `Cgroup.CgroupTree.FindPidInNode` | petra/src/fs/cgroup/tree.rs:320-333 | the search returns the path of a group strictly below the node that holds the process, or that none does |
| `Cgroup.CgroupTree.FindProcCgroup` | petra/src/fs/cgroup/tree.rs:312-318 | the path returned is that of the group the process belongs to |
| `Cgroup.CgroupTree.ReadProcs` | petra/src/fs/cgroup/tree.rs:214-234 | `cgroup.procs` lists a group's live processes, and for the root those of no other group |
| `Loader.AlignUpIsLeast` | petra/src/modules/loader.rs:156-159 | for powers of two, the least multiple at or above the value, and failure exactly when that does not fit 64 bits |
| `Loader.AlignDownIsFloor` | petra/src/modules/loader.rs:161-163 | for powers of two, the greatest multiple at or below the value |
| `Loader.PlacedSound` | petra/src/modules/loader.rs:219-240 | sections get aligned offsets in order, disjoint from each other and below the image's end |
| `Loader.PlaceSections` | petra/src/modules/loader.rs:219-240 | the loop places the sections so, and stops at the first error |
| `Loader.CopySections` | petra/src/modules/loader.rs:246-265 | each initialized section holds exactly its file bytes and every other byte is zero; it fails exactly when one lies outside the file |
| `Loader.LoadImageRel` | petra/src/modules/loader.rs:219-266 | a relocatable object loads exactly when its sections can be placed, take room and lie in the file, and the error otherwise is the first one |
| `Loader.SpanSound` | petra/src/modules/loader.rs:168-203 | the span is page-aligned, covers every loaded segment, and reaches no further than the pages they touch |
| `Loader.LastWriter` | petra/src/modules/loader.rs:205-212 | the segment whose copy a byte keeps is the last that covers it |
| `Loader.FindSpan` | petra/src/modules/loader.rs:168-203 | the loop over program headers computes that span and stops at the first error |
| `Loader.CopySegments` | petra/src/modules/loader.rs:203-213 | every copy stays inside the image, and each byte is from the last segment that covers it or zero |
| `Loader.LoadImageDyn` | petra/src/modules/loader.rs:168-214 | a shared object loads exactly when its segments can be spanned, there is one, and all lie in the file |

## Where the code and its comments differ

The model follows the code.

- `align_frame_below` promises the largest suitable address; for limits 9 to 15 bytes into a block it is 16 bytes lower.
- `from_bytes` calls itself the inverse of `to_bytes`; `SignalFrame.InverseIffCarriable` says on which frames it is.
- `Restore::from_frame` says it checks `pretcode` and `uc_flags`; it checks rip and rsp only.
- `handler_mask` says `rt_sigreturn` puts it back; the mask comes from the frame.
- `is_canonical` says canonical form; it does not look at bit 47.
- `wake_one_thread` promises to prefer a thread that does not block a deliverable signal; it takes the first that is not
  being killed. `ProcessSignals.SentArmedIff` says when a thread that could take the signal is left without its flag.
- `handle_ast` stands the flag down after a look in vain without looking again; `AstRace.ArmInWindowStrands` says when a
  signal is then left behind.
- `push_overwrite` overwrites the oldest byte; with a `pop` under way it can also put the tail back.
- The WireGuard module speaks of anti-replay counters; received counters are used as nonces and not compared
  (`WireGuard.ReceiveTwice`).
- `parse_hex` takes what `from_str_radix` takes, a leading plus sign included.

## Left out

- RingBuffer.EveryRunIsFifo: loads and stores are sequentially consistent; the acquire and release orderings themselves are not modelled, nor `len` called from a third thread.
- RingBuffer.Ring.constructor: capacities that divide 2^64; `RingBuffer.FifoIffCapacityDivides` says why no others.
- ThreadSignals.Thread.BuildHandlerFrame: a frame write that fails half-way leaves memory unchanged, because user-memory copies are not part of this model.
- ThreadSignals.Thread.DeliverSignal: a default action (stop, exit) is only what it leaves in the two queues.
- Cgroup.CgroupTree.CgroupPath: the parent of a removed group is still there; in the kernel it may have been freed, and the path then starts below it.
- Cgroup.CgroupTree.ReadProcs: the set listed, not its sorting and printing; inode numbers do not wrap.
- Loader.LoadImageRel: headers arrive decoded, and the image can always be allocated; `offset + size` is added without bound, where a kernel built with overflow checks panics on a wrap and one built without finds the range outside the file.
- SignalFrame.FrameAddrSafe: `ss_sp + ss_size` wraps, as in a kernel built without overflow checks; one built with them panics there.
- RingOverwrite.RunInvIff: counters that do not wrap and sequentially consistent accesses.
- CgroupRace.MoveInvIff: the removal, under the lock of the root, is one section.
- ProcessSignals.Sent: the checks of `send_signal` before the signal is queued.
- Waiting in `read`, `write` and futex calls, wait queues and timers: a blocked call is a step that is not yet enabled; SIGPIPE is not raised.
- Hardware clock reads, the set of live processes and executable mappings are parameters.
- Secrecy, timing and unpredictability of the ciphers; key exchange of WireGuard.
- The user-space ABI tables, keymaps, device registries, epoll, mount API and io_uring: each claim follows from one branch.
- Sockets, interfaces and schedulers: wrappers over crates that are not part of this model.
- Virtual memory, system call entry, ELF parsing and relocation values, the vDSO image.
