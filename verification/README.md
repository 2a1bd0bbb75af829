# Proofs about UPGM's signer, locks and XML library

Dafny models of three parts of the repository, with proofs of what they are for.

**Signer (`Powers`, `Units`, `RsaArithmetic`, `Merritt`, `Crt`, `RsaLib`, `Bytes`, `Bits`, `Crypto`, `Md4`, `Base64`,
`KeyFiles`).** `CRSALib` computes on arrays of 16-bit units with a precision that says how many of them are live. Each
routine is a method over arrays, proved against the value `Val` of the live units. `Merritt` states the modular
multiplication as a function, with its signed 16-bit quick test, and proves for which moduli it is exact. On top stand
block encryption, MD4 counting and padding, key files with their checksum and password mask, and Base64.

**Lock library (`Lists`, `LockGraphs`, `GraphLinks`, `MutexSystem`, `MutexDeadlock`, `MutexCalls`, `SemaphoreSystem`,
`SemaphoreSafety`, `SemaphoreLeak`, `SemaphoreCalls`, `BreakSystem`, `BreakCalls`, `MixedLocks`).** The graph reduction is a method; mutex,
reader-writer semaphore and gate are step systems with a program counter for each thread, whose invariants hold in all
interleavings of any number of threads. A step is a semaphore wait, a post, or the section between two of them that a
semaphore protects. `MixedLocks` puts any number of mutexes and semaphores into one graph; its steps are the sections of
the graph and the single units of a lock. The three `Calls` modules say what a call has brought about when it returns,
whatever the other threads did in between, and that each of its steps brings it nearer to its return.

**TinyXML (`XmlText`, `XmlLiterals`, `XmlReadBack`, `XmlDocument`, `XmlForms`, `XmlParser`, `XmlRoundTrip`, `XmlExact`,
`DomList`, `AttributeRing`).** The printer and the parser are methods proved against functions on byte sequences, where a pointer
is the rest of the markup from there. `XmlLiterals` and `XmlForms` state entities, references, forms of attributes,
words, names and printed elements by the characters they are written with. The trees they print and build are values; the linked node lists and the attribute
ring are modelled beside them, as classes whose links are edited in place.

Where code and documentation or intent part, the models follow the code:

- The top-unit difference of the Merritt multiplication is a signed 16-bit value. It wraps for moduli just below a
  power of two, and products come out unreduced there (`MerrittFails`, `CornerCube`).
- The short division keeps its remainder in 16 bits and is wrong for some dividends for every divisor above 2^15.
- Entry assignment in the lock graph leaves the mode behind, so an erase shifts the entries but not their modes
  (`SoftCycleReported`).
- Unlocking a write before a read inside it makes the later read unlock post a unit that was never taken, and then exit
  the process (`NestedReadOutlivesWrite`).
- Messages over 65535 bytes are encrypted whole but announced modulo 65536.
- The copy constructor of the key object copies the first array into both.
- Loading keys answers true even when both attempts fail, as they do for every file whose size field passes its length
  (`OversizedFails`); the flushed key then has no bases.
- In the Base64 routine the job named decoding is the one that makes text. Its size check leaves out the padding, so the
  last group can go past the room (`CheckSufficesIff`). The search for an illegal character never ends, because its
  guard cannot fail, and the report behind it is never reached (`SearchReturnsIff`).
- A good checksum says nothing of the two lengths in a key file, and loading does not check them
  (`GoodKeyFileOverruns`).
- Decryption copies from two bytes into its buffer and can take in the two bytes behind it: for every pair of keys
  there is a ciphertext of one block for which it does (`EveryPairLeaks`).
- With a modulus of one significant unit the rounds of encryption take nothing in, and each writes two bytes further on
  (`EncryptionEndsIff`).
- With semaphores in the graph, a deadlock is reported while everybody can go on (`FalseReport`), and two mutexes locked
  in opposite order go without a report while somebody reads four semaphores (`MissedDeadlock`).

## Model

| member | source | states |
|---|---|---|
| `RsaLib.CRSALib.MpAddc` | modules/webmoney/src/wmsigner-2.0.2/rsalib1.cpp:42-55 | Adds with carry in the live units: value and carry out make up the exact sum, units above the precision stay. |
| `RsaLib.CRSALib.MpSubb` | modules/webmoney/src/wmsigner-2.0.2/rsalib1.cpp:57-70 | Subtracts with borrow: value minus borrow out times the radix power is the exact difference. |
| `RsaLib.CRSALib.MpRotateLeft` | modules/webmoney/src/wmsigner-2.0.2/rsalib1.cpp:72-88 | Doubles and takes a bit in; the bit shifted out of the top is returned. |
| `RsaLib.CRSALib.MpCompare` | modules/webmoney/src/wmsigner-2.0.2/rsalib1.cpp:107-121 | The sign of the difference of the two values. |
| `RsaLib.CRSALib.MpDec` | modules/webmoney/src/wmsigner-2.0.2/rsalib1.cpp:135-147 | Subtracts one modulo the width; the borrow tells whether the value was zero. |
| `RsaLib.CRSALib.MpNeg` | modules/webmoney/src/wmsigner-2.0.2/rsalib1.cpp:149-160 | Leaves the two's complement: the negated value modulo the width. |
| `RsaLib.CRSALib.Significance` | modules/webmoney/src/wmsigner-2.0.2/rsalib1.cpp:182-193 | The number of units up to the highest one that is not zero. |
| `RsaLib.CRSALib.MpUdiv` | modules/webmoney/src/wmsigner-2.0.2/rsalib1.cpp:200-244 | Quotient and remainder of the values for every nonzero divisor, top bit set or not, and the status of a zero divisor; the shifted remainder never loses a bit. |
| `RsaLib.CRSALib.MpDiv` | modules/webmoney/src/wmsigner-2.0.2/rsalib1.cpp:247-263 | Truncating signed division modulo wrap-around; both operands have their old values again afterwards. |
| `RsaLib.CRSALib.MpShortdiv` | modules/webmoney/src/wmsigner-2.0.2/rsalib1.cpp:266-313 | Quotient and remainder of the values for divisors up to 2^15; beyond, the bits that a 16-bit register gives, as they are. |
| `RsaLib.CRSALib.MpMod` | modules/webmoney/src/wmsigner-2.0.2/rsalib1.cpp:316-352 | The remainder that MpUdiv gives, without the quotient. |
| `RsaLib.CRSALib.MpMult` | modules/webmoney/src/wmsigner-2.0.2/rsalib1.cpp:394-429 | The product of the two values modulo the width. |
| `RsaLib.CRSALib.StageMpImages` | modules/webmoney/src/wmsigner-2.0.2/rsalib1.cpp:443-452 | Image i holds the multiplicand doubled i times. |
| `RsaLib.CRSALib.StageMerrittModulus` | modules/webmoney/src/wmsigner-2.0.2/rsalib1.cpp:453-474 | Rung i holds the modulus doubled i times, with its two top units at hand. |
| `RsaLib.CRSALib.QuickCompare` | modules/webmoney/src/wmsigner-2.0.2/rsalib1.cpp:520-537 | The two-unit test in signed 16-bit arithmetic decides exactly as the specification of one rung does. |
| `RsaLib.CRSALib.MerrittModmult` | modules/webmoney/src/wmsigner-2.0.2/rsalib1.cpp:476-542 | The product left in the buffer is the Merritt product function of the operands, wrap-around of the signed test included. |
| `RsaLib.CRSALib.MpModexp` | modules/webmoney/src/wmsigner-2.0.2/rsalib1.cpp:574-648 | Status of each refused input; otherwise the square-and-multiply value, which is the exact power modulo the modulus when no signed difference can wrap; the precision is restored. |
| `RsaLib.CRSALib.RsaDecrypt` | modules/webmoney/src/wmsigner-2.0.2/rsalib1.cpp:650-703 | Status of the first half that refuses, smaller modulus first; otherwise the recombination of the two half exponentiations, for all moduli, inside the Merritt corner and with wrap-around at the precision too, whichever modulus is larger and through the borrow branch; or that a unit is read which nothing has set. With the halves of a key, M is the unique number below p*q with the two residues, and only zero to the power zero is refused. |
| `RsaArithmetic.DecryptIsRecombination` | modules/webmoney/src/wmsigner-2.0.2/rsalib1.cpp:650-703 | For the halves of a key (inverse given, outside the corner, square of the larger prime within the precision) nothing wraps: the computed value is the number below p*q with both residues. |
| `RsaLib.CRSALib.MpSqrt` | modules/webmoney/src/wmsigner-2.0.2/rsalib1.cpp:705-841 | The integer square root at the reduced working precision, and status 0 exactly for perfect squares, over every dividend with a clear top bit. |
| `Merritt.RungTestExact` | modules/webmoney/src/wmsigner-2.0.2/rsalib1.cpp:520-537 | While no top-unit difference wraps, the test on the two top units and the full comparison behind it decide as comparing the whole values does. |
| `Merritt.LadderReduces` | modules/webmoney/src/wmsigner-2.0.2/rsalib1.cpp:509-541 | A value below 2^17 times the modulus comes out of the ladder congruent and below the modulus. |
| `Merritt.MerrittReduces` | modules/webmoney/src/wmsigner-2.0.2/rsalib1.cpp:476-542 | Outside the corner every product is the exact residue, with nothing lost in the buffer. |
| `Merritt.MerrittFails` | modules/webmoney/src/wmsigner-2.0.2/rsalib1.cpp:520-537 | In the corner, n-1 times 131071 passes the ladder unreduced. |
| `Merritt.MerrittExactIff` | modules/webmoney/src/wmsigner-2.0.2/rsalib1.cpp:476-542 | Products are exact for all operands if and only if (n-1)*131071 stays below top unit 65535. |
| `Merritt.WorkHeadRoom` | modules/webmoney/src/wmsigner-2.0.2/rsalib1.cpp:603 | The precision chosen from the bit length leaves 17 bits of head room for every modulus. |
| `Merritt.SquareMultiplyReduces` | modules/webmoney/src/wmsigner-2.0.2/rsalib1.cpp:624-642 | The left-to-right loop over Merritt products is exponentiation modulo n. |
| `Merritt.CornerCube` | modules/webmoney/src/wmsigner-2.0.2/rsalib1.cpp:624-642 | A base and a modulus whose cube the loop gets wrong. |
| `Crt.RecombinedResidues` | modules/webmoney/src/wmsigner-2.0.2/rsalib1.cpp:683-695 | The recombination has the residue a modulo p and b modulo q. |
| `Crt.RecombinationUnique` | modules/webmoney/src/wmsigner-2.0.2/rsalib1.cpp:683-695 | Two numbers below p*q with the same residues are equal, given the inverse. |
| `RsaArithmetic.TruncatedDivisionIff` | modules/webmoney/src/wmsigner-2.0.2/rsalib1.cpp:247-263 | The signed quotient and remainder are the only q and r with a = q*b + r, the size of r below that of b and of the sign of a. |
| `RsaArithmetic.ShortExactIff` | modules/webmoney/src/wmsigner-2.0.2/rsalib1.cpp:266-313 | The short division remainder is exact for every dividend if and only if the divisor is at most 2^15. |
| `Crypto.GetCLenB` | modules/webmoney/src/wmsigner-2.0.2/crypto.cpp:11-22 | The announced number of ciphertext bytes; 0 for a modulus without significant units, and the division by zero for one with a single unit. |
| `Crypto.CrpB` | modules/webmoney/src/wmsigner-2.0.2/crypto.cpp:24-75 | The whole output buffer: the block-wise exponentiation of the framed message, and everything behind it unchanged; with fewer than two significant units the copy of a negative size or the rounds without progress; the length is that of GetCLenB at 528 bits, which can divide by zero on its own. For an exact key each ciphertext block is the power, modulo the modulus, of the run of length and message bytes it stands for. |
| `Crypto.EncryptionEndsIff` | modules/webmoney/src/wmsigner-2.0.2/crypto.cpp:42-70 | From one significant unit on, the rounds of encryption come to an end if and only if there are two; with one, each round takes nothing in and writes two bytes more. |
| `Crypto.DCrpB` | modules/webmoney/src/wmsigner-2.0.2/crypto.cpp:77-136 | Returned length, length written and bytes copied for every input: refusals, zeroed tail of the buffer and the bytes behind it. For an exact key the bytes come from a buffer that holds, for each whole block, the power of that block, or 1 for a refused one. |
| `Crypto.BeyondIff` | modules/webmoney/src/wmsigner-2.0.2/crypto.cpp:123-135 | What is handed out does not depend on the two bytes behind the buffer if and only if the ciphertext is rejected or at least two bytes longer than the announced length. |
| `Crypto.EveryPairLeaks` | modules/webmoney/src/wmsigner-2.0.2/crypto.cpp:123-135 | For every pair of keys whose block length fits 16 bits, one block of ciphertext announces its own length, and its decryption ends in the two bytes behind the buffer. |
| `Crypto.EncryptedLength` | modules/webmoney/src/wmsigner-2.0.2/crypto.cpp:11-75 | CrpB writes exactly as many bytes as GetCLenB announces. |
| `Crypto.BlockRoundTrip` | modules/webmoney/src/wmsigner-2.0.2/crypto.cpp:24-136 | Every plaintext block is below the modulus, and exponentiating twice gives its bytes back. |
| `Crypto.RoundTripPrefix` | modules/webmoney/src/wmsigner-2.0.2/crypto.cpp:24-136 | Decryption gives the message cut to its length modulo 65536, for messages of every length. |
| `Crypto.RoundTripIff` | modules/webmoney/src/wmsigner-2.0.2/crypto.cpp:24-136 | Decryption inverts encryption if and only if the message has at most 65535 bytes. |
| `Crypto.CipherBlocks` | modules/webmoney/src/wmsigner-2.0.2/crypto.cpp:24-75 | For an exact key, block k of the ciphertext has the value of run k of the length and message bytes, raised to the exponent modulo the modulus. |
| `Crypto.PlainBlocks` | modules/webmoney/src/wmsigner-2.0.2/crypto.cpp:77-136 | For an exact key, run k of the decryption buffer has the value of ciphertext block k raised to the exponent modulo the modulus, cut to the work bytes, or 1 where the block is not below the modulus; zeros follow. |
| `LockGraphs.CheckLockGraph` | legacy/payguide/lib/libbonbon/clock.cc:109-188 | Terminates on every graph, and with one request per transaction returns 1 exactly when the graph reports a deadlock, despite the entry skipped after an erase. |
| `LockGraphs.Erase` | legacy/payguide/lib/libbonbon/slockgraph.h:31-37 | A vector erase moves the later entries down by assignment, which leaves the modes in place. |
| `LockGraphs.ResidueIsLargest` | legacy/payguide/lib/libbonbon/clock.cc:109-172 | What the reduction leaves is exactly the largest wait-closed set of the input. |
| `LockGraphs.CycleIff` | legacy/payguide/lib/libbonbon/clock.cc:109-172 | There is a nonempty wait-closed set if and only if requests wait for one another in a cycle. |
| `LockGraphs.ReportsIffHardInFront` | legacy/payguide/lib/libbonbon/clock.cc:109-188 | A report is made if and only if there is a wait cycle and a hard mode among the first as many entries as are deadlocked. |
| `LockGraphs.HardReportsIffCycle` | legacy/payguide/lib/libbonbon/clock.cc:109-188 | While every mode is hard, exactly the wait cycles are reported. |
| `LockGraphs.SoftCycleReported` | legacy/payguide/lib/libbonbon/clock.cc:109-188 | A graph whose reported cycle holds soft entries only: the hard mode of an unrelated entry stayed in front. |
| `LockGraphs.LockGraph.RequireLock` | legacy/payguide/lib/libbonbon/clock.cc:57-67 | Appends a request and reports for the new graph. |
| `LockGraphs.LockGraph.CatchLock` | legacy/payguide/lib/libbonbon/clock.cc:69-88 | Retags the first entry of transaction and lock, or exits where there is none. |
| `LockGraphs.LockGraph.ReleaseLock` | legacy/payguide/lib/libbonbon/clock.cc:90-107 | Erases the first entry of transaction and lock, or exits where there is none. |
| `GraphLinks.ReleaseLink` | legacy/payguide/lib/libbonbon/clock.cc:90-107 | Releasing ends the link of one transaction and lock and keeps every other one. |
| `MutexSystem.NextInv` | legacy/payguide/lib/libbonbon/cmutex.cc:32-80 | Every step of every thread keeps the invariant between semaphores, lists, graph and program counters. |
| `MutexSystem.GraphStep` | legacy/payguide/lib/libbonbon/clock.cc:57-107 | Where CatchLock and ReleaseLock look for an entry, it is there, and only the link of that thread changes. |
| `MutexDeadlock.RunSafe` | legacy/payguide/lib/libbonbon/cmutex.cc:32-80 | In every run: no process exit, at most one owner and one held entry per mutex, at most one request per thread. |
| `MutexDeadlock.DetectionIsExact` | legacy/payguide/lib/libbonbon/cmutex.cc:32-54 | In every state of every run the last check has reported a deadlock if and only if a nonempty set of threads wait for mutexes of one another. |
| `MutexDeadlock.DeadlockIsPermanent` | legacy/payguide/lib/libbonbon/cmutex.cc:32-80 | Threads in a deadlock stay in it for the rest of the run. |
| `MutexDeadlock.ReportIsForever` | legacy/payguide/lib/libbonbon/cmutex.cc:32-80 | After a report the same nonempty set of threads is deadlocked, and stays reported, in every later state. |
| `MutexDeadlock.OnlyMutexesBlock` | legacy/payguide/lib/libbonbon/cmutex.cc:32-80 | When no call can go on, every thread inside one waits for a mutex that an idle or waiting thread has; the internal semaphores never block. |
| `MutexCalls.LockReturns` | legacy/payguide/lib/libbonbon/cmutex.cc:32-54 | In every run, when Lock returns the caller is listed, has the only unit and holds the entry; nobody else has the mutex. |
| `MutexCalls.UnlockReturns` | legacy/payguide/lib/libbonbon/cmutex.cc:56-80 | In every run, when UnLock returns the caller is neither listed nor in the graph, and the mutex has its unit if and only if nobody else has taken it. |
| `MutexCalls.CallsEnd` | legacy/payguide/lib/libbonbon/cmutex.cc:32-80 | Each step of a thread brings its call nearer to its return, which takes ten steps at most. |
| `MutexCalls.CallsReturn` | legacy/payguide/lib/libbonbon/cmutex.cc:32-80 | From every state of every run with all threads idle, a Lock of a free mutex and every UnLock can run to its return. |
| `SemaphoreSystem.NextInv` | legacy/payguide/lib/libbonbon/csemaphore.cc:52-192 | Every step of every thread keeps units, lists, graph links and internal semaphores in step. |
| `SemaphoreSafety.UnitsAccounted` | legacy/payguide/lib/libbonbon/csemaphore.cc:52-192 | In every run free units and owned units together are 25 plus the units leaked, and each leak has its thread on the way to the process exit. |
| `SemaphoreSafety.LeakAndExitIff` | legacy/payguide/lib/libbonbon/csemaphore.cc:89-123 | A step leaks a unit, or exits the process, exactly at the post and at the release of the unlock of a read that began inside a write section. |
| `SemaphoreSafety.UnlockLeaksIff` | legacy/payguide/lib/libbonbon/csemaphore.cc:89-123 | Seen from the start of the unlock, in every run: it leaks its unit and then exits the process if and only if the thread is then in the readers, not in the writers, and its read began inside a write section, whatever other threads do in between. |
| `SemaphoreSafety.DisciplinedIsSafe` | legacy/payguide/lib/libbonbon/csemaphore.cc:52-192 | While nested reads are released first: units are conserved, nobody exits, and a thread in a write section excludes all readers and writers. |
| `SemaphoreSafety.OneCollector` | legacy/payguide/lib/libbonbon/csemaphore.cc:152-158 | At most one writer is collecting units. |
| `SemaphoreSafety.OnlyHoldersBlock` | legacy/payguide/lib/libbonbon/csemaphore.cc:52-192 | When no call can go on, an idle thread keeps units: calls in progress never block each other for good. |
| `SemaphoreLeak.NestedReadOutlivesWrite` | legacy/payguide/lib/libbonbon/csemaphore.cc:89-192 | A reachable state with one unit too many, and the process exit after it. |
| `SemaphoreCalls.LockReadReturns` | legacy/payguide/lib/libbonbon/csemaphore.cc:52-87 | When LockRead returns the caller is in the readers: with one unit and the entry, or, inside its write section, with what it had; a second read changes nothing. |
| `SemaphoreCalls.UnlockReadReturns` | legacy/payguide/lib/libbonbon/csemaphore.cc:89-123 | When UnLockRead returns the caller is not in the readers, and without a write section around it has neither unit nor entry. |
| `SemaphoreCalls.LockWriteReturns` | legacy/payguide/lib/libbonbon/csemaphore.cc:125-164 | When LockWrite returns to a caller that was on neither list, it is the writer with all 25 units; otherwise nothing changed. |
| `SemaphoreCalls.UnlockWriteReturns` | legacy/payguide/lib/libbonbon/csemaphore.cc:166-192 | When UnLockWrite returns the caller is not in the writers and has neither unit nor entry, a read of its own stays listed. |
| `SemaphoreCalls.CallsEnd` | legacy/payguide/lib/libbonbon/csemaphore.cc:52-192 | Each step of a thread brings its call nearer to its return. |
| `BreakSystem.GateCoversWaiters` | legacy/payguide/lib/libbonbon/cbreak.cc:18-77 | In every run, once a Destroy is through, the gate has a unit for each registered thread still before it, so whoever waits there can pass. |
| `BreakSystem.NoNewWaiters` | legacy/payguide/lib/libbonbon/cbreak.cc:18-30 | After the destruction nobody registers. |
| `BreakSystem.NobodyLeftInside` | legacy/payguide/lib/libbonbon/cbreak.cc:18-77 | After the destruction threads stop moving only when every call has returned. |
| `BreakCalls.GateConserved` | legacy/payguide/lib/libbonbon/cbreak.cc:18-77 | In every run the units left at the gate and those that have passed it are those that returned Runs and the posts of Destroy have put there. |
| `BreakCalls.RunOpens` | legacy/payguide/lib/libbonbon/cbreak.cc:50-54 | A Run that has just returned lets any thread that waits at the gate go on. |
| `BreakCalls.WaitReturns` | legacy/payguide/lib/libbonbon/cbreak.cc:18-48 | A Wait returns after passing the gate or after the destruction, and the caller is not registered then. |
| `BreakCalls.WaitRegisters` | legacy/payguide/lib/libbonbon/cbreak.cc:18-48 | Before the destruction a Wait registers its thread and goes on to the gate; after it, it does neither. |
| `BreakCalls.DestroyReturns` | legacy/payguide/lib/libbonbon/cbreak.cc:56-77 | After a Destroy the gate is destroyed and, once no other is at work, has a unit for each thread still before it. |
| `BreakCalls.CallsEnd` | legacy/payguide/lib/libbonbon/cbreak.cc:18-77 | Each step of a thread brings its call nearer to its return. |
| `MixedLocks.NextInv` | legacy/payguide/lib/libbonbon/clock.cc:57-107 | Over mutexes and semaphores in one graph, every step keeps entries, units and collecting writers in step. |
| `MixedLocks.EntriesThere` | legacy/payguide/lib/libbonbon/clock.cc:69-107 | Where an entry is noted or released, it is in the graph. |
| `MixedLocks.RunReports` | legacy/payguide/lib/libbonbon/clock.cc:109-188 | In every state of every run each thread has one request at most, and the graph is reported if and only if some threads ask for locks that others of them hold and a hard mode is among the first as many as there are deadlocked entries. |
| `MixedLocks.StuckForever` | legacy/payguide/lib/libbonbon/csemaphore.cc:52-192 | Threads that miss units which the others of them have stay stuck in the rest of the run. |
| `MixedLocks.WaitingStuckIff` | legacy/payguide/lib/libbonbon/csemaphore.cc:52-192 | Threads that wait for one another are stuck if and only if none of them is a reader whose semaphore has a unit that none of the others has. |
| `MixedLocks.ReportIsRightIff` | legacy/payguide/lib/libbonbon/clock.cc:109-188 | In every state of every run: some threads are stuck if and only if some wait for one another without a reader with a unit to spare, and stuck threads are reported if and only if a hard mode is in front. |
| `MixedLocks.FalseReport` | legacy/payguide/lib/libbonbon/clock.cc:109-188 | A reachable state with a report in which every thread that asks can go on at once. |
| `MixedLocks.MissedDeadlock` | legacy/payguide/lib/libbonbon/clock.cc:109-188 | A reachable state with two threads stuck for good and no report. |
| `MixedLocks.LockCompletes` | legacy/payguide/lib/libbonbon/csemaphore.cc:52-164 | An idle thread can lock what nobody has, for one unit or all, and then holds just those units and its entry. |
| `MixedLocks.UnlockCompletes` | legacy/payguide/lib/libbonbon/csemaphore.cc:89-192 | An idle thread can unlock what it holds: all its units of the lock are free again and its entry is gone. |
| `XmlText.EncodeString` | xml/tinyxml.cpp:52-133 | The escaping loop, with references passed through up to a semicolon or the last byte but one. |
| `XmlText.ReadDigits` | xml/tinyxmlparser.cpp:454-508 | The backward digit loop in 32- and 64-bit arithmetic yields the low byte of the number written after the last marker, and fails on any other character. |
| `XmlText.GetEntity` | xml/tinyxmlparser.cpp:438-531 | References, the five entities in table order, and the dropped ampersand. |
| `XmlText.ReadText` | xml/tinyxmlparser.cpp:574-637 | The text up to the end tag, raw or condensed, and the pointer behind it. |
| `XmlText.NameBack` | xml/tinyxmlparser.cpp:401-436 | A valid name is read back up to the first byte that cannot belong to it. |
| `XmlText.CharOfByte` | xml/tinyxml.cpp:52-133 | One escaped byte is read back as that byte, whatever follows it. |
| `XmlLiterals.EntitiesRead` | xml/tinyxmlparser.cpp:438-531 | The five entities by their names: each is read as its character, whatever follows. |
| `XmlLiterals.LooseAmpersand` | xml/tinyxmlparser.cpp:438-531 | An ampersand that begins no entity and no reference is dropped. |
| `XmlLiterals.DecimalRead` | xml/tinyxmlparser.cpp:454-508 | A decimal reference is read as its positional value modulo 256. |
| `XmlLiterals.HexadecimalRead` | xml/tinyxmlparser.cpp:454-508 | A hexadecimal reference is read as its positional value modulo 256, in upper and lower case. |
| `XmlLiterals.ByteWritten` | xml/tinyxml.cpp:52-133 | Each byte is printed as its entity, as a reference of two hexadecimal digits below 32, or as it stands. |
| `XmlLiterals.TextWritten` | xml/tinyxml.cpp:52-133 | Text is printed byte by byte, except where it looks like a hexadecimal reference. |
| `XmlLiterals.ReferenceWritten` | xml/tinyxml.cpp:52-133 | What looks like a hexadecimal reference is printed as it stands, up to its semicolon. |
| `XmlReadBack.RawBackIff` | xml/tinyxmlparser.cpp:574-601 | A quoted value comes back whole, with reading at its closing quote, if and only if it holds no reference. |
| `XmlReadBack.TextBack` | xml/tinyxmlparser.cpp:603-637 | Escaped text without references comes back trimmed, through any white space around it. |
| `XmlReadBack.TrimmedIff` | xml/tinyxmlparser.cpp:603-637 | Trimming changes nothing if and only if there is no leading, trailing or doubled space. |
| `XmlReadBack.TextBackIff` | xml/tinyxmlparser.cpp:603-637 | Text printed between tags comes back as it was, with reading behind the tag, if and only if it holds no reference and is tidy; with closed references reading never runs past that tag. |
| `XmlForms.NameBytes` | xml/tinyxmlparser.cpp:401-436 | The characters that begin a name and those that go on with it. |
| `XmlForms.QuotedRead` | xml/tinyxmlparser.cpp:1390-1461 | An attribute in either quotes, with white space around its equals sign, is read with its value as it stands. |
| `XmlForms.UnquotedRead` | xml/tinyxmlparser.cpp:1390-1461 | A value without quotes ends at white space, a slash or the end of the tag. |
| `XmlForms.WordsRead` | xml/tinyxmlparser.cpp:603-637 | White space between two words is read as one space, and none around them. |
| `XmlForms.AttributePrinted` | xml/tinyxml.cpp:1165-1188 | A value is printed in double quotes, or in single ones when it has double quotes in it. |
| `XmlForms.SimplePrinted` | xml/tinyxml.cpp:1719-1807 | An element with an attribute and a text is printed on one line. |
| `XmlForms.NestedPrinted` | xml/tinyxml.cpp:1719-1807 | An element inside another is printed on a line of its own, indented once, and closes itself when empty. |
| `XmlForms.WrongEndTag` | xml/tinyxmlparser.cpp:1043-1176 | An end tag whose name does not begin with that of the element is the error of reading an end tag. |
| `XmlForms.NoElement` | xml/tinyxmlparser.cpp:704-796 | Markup without an element is the error of an empty document. |
| `XmlDocument.PrintAttribute` | xml/tinyxml.cpp:1165-1188 | Name, value and the quote that the value does not hold. |
| `XmlDocument.TiXmlPrinter.Accept` | xml/tinyxml.cpp:831-842 | Visiting a node appends exactly its printed form, one-line texts and depth included. |
| `XmlDocument.TiXmlPrinter.VisitEnter` | xml/tinyxml.cpp:1719-1754 | The start tag, the depth and whether the text inside is printed on the same line. |
| `XmlParser.ParseAttribute` | xml/tinyxmlparser.cpp:1390-1461 | Name and value, quoted with either quote or bare, or the error. |
| `XmlParser.ParseElement` | xml/tinyxmlparser.cpp:1043-1176 | The element read, or the first error, or no progress. |
| `XmlParser.ReadValue` | xml/tinyxmlparser.cpp:1179-1247 | Texts and elements up to an end tag, blank texts dropped, one byte back after each text. |
| `XmlParser.ParseDocument` | xml/tinyxmlparser.cpp:704-796 | The top-level nodes, or the error. |
| `XmlRoundTrip.AttributeRoundTripIff` | xml/tinyxml.cpp:1165-1188 | Parsing a printed attribute recovers name and value and takes in just its text if and only if the value holds no reference. |
| `XmlRoundTrip.DocumentRoundTrip` | xml/tinyxml.cpp:1719-1807 | Parsing a printed document gives the same tree, printed to a stream or with any white-space indentation and line break. |
| `XmlExact.NodesShaped` | xml/tinyxmlparser.cpp:704-1247 | Whatever the markup, a returned document has an element at least and elements only at its top, no attribute twice in an element, no two texts side by side and no blank text. |
| `XmlExact.DocumentRoundTripIff` | xml/tinyxml.cpp:1719-1807 | Over readable names and closed references, parsing a printed document gives the same tree if and only if its top is a nonempty list of elements, names are unique, texts apart, tidy and not blank, and no value holds a reference. |
| `DomList.TiXmlNode.LinkEndChild` | xml/tinyxml.cpp:186-211 | Append. The children are the old sequence so edited, both chains and the parents fit it, and refused calls change nothing; values and lists of all children stay, and lists one level down stay linked. |
| `DomList.TiXmlNode.InsertBeforeChild` | xml/tinyxml.cpp:228-257 | Insert in front of a child. The children are the old sequence so edited, both chains and the parents fit it, and refused calls change nothing; values and lists of all children stay, and lists one level down stay linked. |
| `DomList.TiXmlNode.InsertAfterChild` | xml/tinyxml.cpp:260-289 | Insert behind a child. The children are the old sequence so edited, both chains and the parents fit it, and refused calls change nothing; values and lists of all children stay, and lists one level down stay linked. |
| `DomList.TiXmlNode.ReplaceChild` | xml/tinyxml.cpp:292-328 | Replace one child. The children are the old sequence so edited, both chains and the parents fit it, and refused calls change nothing; values and lists of all children stay, and lists one level down stay linked. |
| `DomList.TiXmlNode.RemoveChild` | xml/tinyxml.cpp:331-354 | Take one child out. The children are the old sequence so edited, both chains and the parents fit it, and refused calls change nothing; values and lists of all children stay, and lists one level down stay linked. |
| `DomList.TiXmlNode.FirstChild` | xml/tinyxml.cpp:357-366 | Walks the forward chain to the first child of a value. |
| `DomList.TiXmlNode.LastChild` | xml/tinyxml.cpp:369-378 | Walks the backward chain to the last child of a value. |
| `AttributeRing.TiXmlAttributeSet.Add` | xml/tinyxml.cpp:1467-1479 | Links an attribute in front of the sentinel; the ring stays whole. |
| `AttributeRing.TiXmlAttributeSet.Remove` | xml/tinyxml.cpp:1482-1498 | Unlinks exactly that attribute; one outside the ring changes nothing. |
| `AttributeRing.TiXmlAttributeSet.FindOrCreate` | xml/tinyxml.cpp:1512-1521 | The attribute of a name, made when missing; names stay unique. |
| `Md4.MDstruct.AddCount` | modules/webmoney/src/wmsigner-2.0.2/md4.cpp:147-154 | The byte-wise counter and what is carried out of it make up the old count and the bits added, less the 2^32 that the first sum loses where it wraps. |
| `Md4.AddedVal` | modules/webmoney/src/wmsigner-2.0.2/md4.cpp:147-154 | The same for a counter of any length; only the first byte can make the 32-bit sum wrap. |
| `Md4.MDstruct.MDupdate` | modules/webmoney/src/wmsigner-2.0.2/md4.cpp:135-191 | Whole block, one or two closing blocks with any number of bits in the last byte, only the counter for more than 512 bits, or nothing once done; a counter past eight bytes is reported, exactly when the new count reaches 2^64. |
| `Md4.CountCrcMD4` | modules/webmoney/src/wmsigner-2.0.2/cmdbase.cpp:360-376 | The digest is the fold of the block function over the message padded by RFC 1320, closed exactly once, for every length below 2^31; from there on the signed offset of a block wraps. |
| `Md4.StartingBytes` | modules/webmoney/src/wmsigner-2.0.2/md4.cpp:46-56 | The starting words, as the bytes section 3.3 of RFC 1320 lists. |
| `Md4.PaddedShape` | modules/webmoney/src/wmsigner-2.0.2/md4.cpp:135-191 | The message, one set bit, the fewest zeros that fill up the last block, and the length in bits in the last eight bytes. |
| `Base64.Idx64` | modules/webmoney/src/wmsigner-2.0.2/base64.cpp:121-147 | The three-point search answers the value of the character, and is endless exactly for characters outside the alphabet. |
| `Base64.SearchReturnsIff` | modules/webmoney/src/wmsigner-2.0.2/base64.cpp:121-147 | Some round of the search hits if and only if the character is one of the alphabet; the guard holds in every round. |
| `Base64.SpaceNeverFound` | modules/webmoney/src/wmsigner-2.0.2/base64.cpp:127-141 | An illegal character for which no number of rounds is enough. |
| `Base64.ToText` | modules/webmoney/src/wmsigner-2.0.2/base64.cpp:49-90 | Refusal, or the whole text of the bytes with its padding and the rest of the buffer unchanged, or an overrun, exactly when the size check passes and the padded text does not fit; then buffer and overrun together are the text. |
| `Base64.CheckSufficesIff` | modules/webmoney/src/wmsigner-2.0.2/base64.cpp:51 | The size check is right for every room if and only if the number of bytes is a multiple of three. |
| `Base64.OneByteOverruns` | modules/webmoney/src/wmsigner-2.0.2/base64.cpp:51-76 | One byte passes the check for one character and takes four. |
| `Base64.ToBytes` | modules/webmoney/src/wmsigner-2.0.2/base64.cpp:92-115 | Refusal by the size checks, or the bytes of the groups and how many of them count, or the group in which an illegal character is searched for without end, with the groups in front of it decoded. |
| `Base64.CodecRoundTrip` | modules/webmoney/src/wmsigner-2.0.2/base64.cpp:39-118 | Decoding the text of any byte string gives its bytes and its length. |
| `Base64.Alphabet` | modules/webmoney/src/wmsigner-2.0.2/base64.cpp:26-36 | The character of each value is that of Table 1 of RFC 4648. |
| `Base64.GroupText` | modules/webmoney/src/wmsigner-2.0.2/base64.cpp:57-88 | The characters of a group of three bytes, and of the last two or one, by the six bits each stands for. |
| `Base64.TextJoin` | modules/webmoney/src/wmsigner-2.0.2/base64.cpp:57-66 | Whole groups in front give their own text. |
| `KeyFiles.Keys.LoadFromBuffer` | modules/webmoney/src/wmsigner-2.0.2/cmdbase.cpp:283-320 | The code of each path and the loaded members, or an access outside of the buffer or a key array, exactly for a good checksum over lengths that do not fit; the buffer is unchanged on every path. |
| `KeyFiles.GoodFileOverruns` | modules/webmoney/src/wmsigner-2.0.2/cmdbase.cpp:238-320 | For every checksum function and every size from 30 bytes on there is a file with a good checksum whose lengths do not fit. |
| `KeyFiles.Keys.SaveIntoBuffer` | modules/webmoney/src/wmsigner-2.0.2/cmdbase.cpp:322-358 | The file image, with the checksum taken over zeros in its own place. |
| `KeyFiles.SaveLoad` | modules/webmoney/src/wmsigner-2.0.2/cmdbase.cpp:238-358 | A saved key loads into a fresh object with every member restored, for any checksum function. |
| `KeyFiles.SavedLayout` | modules/webmoney/src/wmsigner-2.0.2/cmdbase.cpp:322-358 | Every field of a saved file by its offset, with the checksum over zeros in its own place. |
| `KeyFiles.RefusedFiles` | modules/webmoney/src/wmsigner-2.0.2/cmdbase.cpp:238-320 | A saved file with another checksum is refused with code 2, one that is too short or announces too much with code 3. |
| `KeyFiles.CopyIff` | modules/webmoney/src/wmsigner-2.0.2/cmdbase.cpp:208-216 | Copy construction keeps the key, and a copy saves to the same file for any checksum function, if and only if its two arrays are equal. |
| `KeyFiles.MaskTwice` | modules/webmoney/src/wmsigner-2.0.2/signer.cpp:34-94 | Masking twice with one password is the identity. |
| `KeyFiles.MaskIsXor` | modules/webmoney/src/wmsigner-2.0.2/signer.cpp:34-94 | From byte 30 on each byte of a file with a flag is the exclusive or with the mask byte whose turn it is; bytes before, and files without a flag, stay. |
| `KeyFiles.LoadKeys` | modules/webmoney/src/wmsigner-2.0.2/signer.cpp:147-175 | The second attempt masks the bytes as they were read; keys and error code for every outcome of the two attempts, and exactly when one of them leaves the buffer or a key array. |
| `KeyFiles.OversizedFails` | modules/webmoney/src/wmsigner-2.0.2/signer.cpp:147-175 | A file whose size field passes its length makes both attempts fail, for every checksum function and both masks. |
| `KeyFiles.OversizedExists` | modules/webmoney/src/wmsigner-2.0.2/signer.cpp:147-175 | There is such a file of every size from 30 bytes on. |
| `KeyFiles.GoodKeyFileOverruns` | modules/webmoney/src/wmsigner-2.0.2/signer.cpp:147-175 | For every checksum function and both masks there is such a key file, of the size the signer reads too. |

## Left out

- RsaLib.CRSALib.MpModexp: exactness is stated one way, for moduli outside the corner; inside it single powers can still be right, and which ones depends on every intermediate product. For the multiplication itself the condition is exact (`MerrittExactIff`).
- RsaLib.CRSALib.RsaDecrypt: stops where the source reads units that nothing has set; what it computes from them is not modelled. A half with modulus one counts as such, although behind a half with modulus zero it would find that half's exponent.
- Md4.MDstruct.MDupdate: reports a counter past its eight bytes; what is then written behind them is not modelled.
- Md4.CountCrcMD4: stops where the signed offset of a block wraps, for lengths from 2^31 on; what is read there is not modelled.
- KeyFiles.Keys.LoadFromBuffer: stops at the first access outside of the buffer or a key array; what it does to the memory there is not modelled.
- Crypto.CrpB: stops where a copy would have a negative size or a round would take nothing in; what is written in such rounds is not modelled.
- Base64.ToText: sizes are unbounded numbers; the product in the size check does not wrap.
- XmlExact.DocumentRoundTripIff: takes references that have their semicolon. An open one can take in markup behind its own value, and which of those documents still come back is left open; each single value and text has its exact condition without that restriction (`AttributeRoundTripIff`, `TextBackIff`).
- Plain characters are compared as signed ones, as on the platforms the signer is built for.
- The unrolled ladder and image additions stand as loops over the rungs and bits; the other loops are the source's own.
- Key arrays are live units followed by zeros up to 128 units, and the precision of exponentiation stays within 128, as in the signer's keys.
- mp_inc, mp_rotate_right, mp_shortmod and the scrubbing of buffers: easy members beside the ones modelled.
- Number theory of RSA keys: that the two exponents undo each other is a hypothesis of the round trip.
- The MD4 compression rounds are a parameter; byte swapping for other byte orders is off, as configured.
- Hexadecimal text of keys and signatures, file reading, random filler and the second signer class.
- The console prompt after a deadlock report, thread identifiers from the system, and destructors of mutex and semaphore.
- The answers of the lock calls: the states keep lists, units and entries, and a refusal shows in what a call leaves.
- The semaphore constructor with a size: it leaves the write semaphore without a value, so the default one is modelled.
- SemaphoreSystem.NextInv: one semaphore with its own entries of the lock graph; several locks in one graph are in `MixedLocks`, there without reads nested in a write section without the internal list semaphores, and with a writer's wait for the write semaphore joined to its first unit.
- XML declarations, comments, CDATA, unknown tags, UTF-8 and byte order marks, row and column stamps, stream input. The parser model answers Other where such a node begins, and Endless where a text at the end of the markup is read again and again.
- Printing through a file, and the trees of a failed parse.
- Cloning copies kind and value in the list model; deep copies, freeing and the query functions are not modelled.
- Transport, databases, sockets, configuration parsers, hooks and worker pools.
