# The aesdchar device, its server and mk_dir_r, in Dafny

This project models four parts of the repository and proves what they do.

**The character device** (`aesd-char-driver/`). Writes collect bytes in a working
entry; a newline commits what has been collected as one command into a ring of
ten, freeing the command it displaces. Reads serve the concatenation of the
commands in the ring. A seek turns (command, offset) into a permanent read
offset. The device appears three times:

- `DeviceModel` is the device as a value: the history of commands, the pending
  bytes, the seek offset, and whether `cb_mutex` was left locked. Interrupted
  lock attempts, failed user copies and failed allocations are part of an
  operation, so one function describes every outcome. Its history is related to
  an independent definition: cut every write after its first newline, join the
  writes into one stream, and divide the stream into lines.
- `CircularBuffers` and `Devices` are the code in its own form: classes with
  arrays, indices and loops, `size_t` and `ssize_t` arithmetic with its
  wrap-around, heap buffers that are allocated and freed, and two mutexes. Every
  operation is proved equal to its function in `DeviceModel`, and so is a whole
  life of a device from initialization to cleanup.
- `Interleaving` is a step system: any number of threads, one atomic step at a
  time, with a commit that takes three steps under `cb_mutex`. Every run is
  proved atomic, the record is tied to the calls the threads make, and the lock
  protocol is proved free of deadlock and bounded under every scheduler, up to two
  exactly characterised kinds of seek; every call can be made and completed.

**The server** (`server/aesdsocket.c`). `Server` has the `pread` drain loop and
the dispatch loop of `appenddata` on top of the device class, and the end-to-end
theorem about what a client is sent. `Connections` has many connections sharing
one device and `dfdmutex`, with failed writes and seek commands.

**The directory maker** (`finder-app/writer.c`). `Directories` has `mk_dir_r` and
`open_file` over an abstract file system with `mkdir`, `open` and `dirname` as in
the System Interfaces volume of POSIX.1-2008 (IEEE Std 1003.1-2008).

`CommandLog` (commands, concatenation, lines), `Lookup` (flat positions) and
`Words` (integer widths) are shared. `dafny verify dfyconfig.toml` checks the
whole project.

## Where the code does less than it means to

The model follows the code. Seven expected properties are false of it; each has
a concrete input and an exact condition.

- A seek tests physical ring slots but sums over live commands. What it accepts
  is the live positions of another command: the one that sits in the slot of the
  given number (`SeekAccepts`). That is right on every call whose offset does not
  wrap if and only if these two commands are equally long for every number
  (`SeekAcceptance`), as they are until the ring wraps (`SeekRightBeforeWrap`);
  after eleven writes it can be wrong (`SeekWrongSlot`). The offset 0xFFFFFFFF is
  always accepted below command ten (`SeekWrap`).
- A rejected seek returns with `cb_mutex` locked, exactly when some uninterrupted
  seek was made whose arguments fail the tests (`AbandonedExact`;
  `RejectedSeekBlocks` is a run).
- A seek for command 0xFFFFFFFF passes the second test, because the sum in it
  wraps, and then never leaves its loop, whose index has eight bits. That happens
  exactly when whatever is read outside the array lets the offset pass
  (`SpinsExact`, `EndlessSeekSpins`, `SpinsForever`).
- By these two kinds of seek, and by nothing else, `cb_mutex` is lost
  (`LostExact`). From then on the ring is frozen (`FrozenWhenLost`) and every
  uninterrupted call that needs the mutex waits for ever (`BlockedForever`). Every
  other call ends: a schedule that only endless loops can continue has finished
  all calls but those in such a loop and those waiting for a lost mutex
  (`EveryScheduleEnds`).
- A read moves the file position so that the next plain read continues if and
  only if the seek offset is 0 (`PlainReadContinues`); with an offset of 1 two
  reads can give the same byte (`PlainReadRepeats`). The `pread` loop of the
  server does not depend on it.
- A write that ends by a fault after its bytes are in the working entry can leave
  a newline there, which the next commit takes along (`StrandedNewline`). A
  command is framed if and only if no such newline was in the working entry when
  it was committed (`FramingExact`, `HistoryFramedExact`), and readers can recover
  the commands in the ring from their newlines if and only if all of these were
  committed without one (`RecoveryExact`).
- A write that has copied its command and then gives up waiting for `cb_mutex`
  leaves the copy allocated. After a device's whole life as many buffers remain
  as there were such writes (`Lifetime`; `LeakedCopy` is a run).
- A working entry with no room for a newline and a terminating zero is never
  emptied: if no allocation can be larger than the working entry, as with
  `kmalloc`, nothing is committed any more exactly when at most one byte is free
  (`FullEntryForever`, `FullEntryExact`). A command of exactly `we.size` bytes
  leads there (`LargestCommand`). The faults of an operation do not impose this
  bound, so a fault-free write of such a command counts as committed in the other
  theorems.

The ring's search is also exact only for rings whose oldest entry is not empty
(`SearchExact`); the driver never stores an empty entry (`EveryRunBounded`).

## Model

| member | source | states |
|---|---|---|
| DeviceModel.FaultFreeRun | aesd-char-driver/main.c:206-308 | after any fault-free run the history is the complete lines of the stream of cut writes and the working entry is what follows the last newline |
| DeviceModel.FaultFreeFraming | aesd-char-driver/main.c:245-298 | in a fault-free run every command has one newline, at its end, the pending bytes none, and nothing of the stream is lost |
| DeviceModel.FaultFreeRecovery | aesd-char-driver/main.c:245-298 | in a fault-free run splitting the ring's content at newlines gives back exactly the ring's commands |
| DeviceModel.EveryRunBounded | aesd-char-driver/main.c:230-270 | in every run, faults included, the fill index stays within the working entry and every command has 1 to `we.size` bytes and ends in a newline |
| DeviceModel.WriteOutcome | aesd-char-driver/main.c:228-307 | for every write on any device: it returns a count if and only if it is not interrupted, fits, is copied whole, and either has no newline or meets neither a failed allocation nor an interrupted wait; the count is then the whole length, whatever stands behind the newline; which error each other exit returns; the file position moves by the bytes copied; and what becomes of the bytes |
| DeviceModel.ReadOutcome | aesd-char-driver/main.c:147-203 | for every read: which error it returns when, that a failed or empty-handed one leaves the file position alone, and by how much another moves it |
| DeviceModel.SeekOutcome | aesd-char-driver/main.c:85-104 | for every seek that comes back: `-EINVAL`, `-ERESTARTSYS` or 0 in closed form, history and working entry untouched, `cb_mutex` left locked exactly by `-EINVAL`, and the seek offset is the number of bytes in the commands before the given one plus the offset |
| DeviceModel.FramingExact | aesd-char-driver/main.c:238-298 | in every run, faults included, the working entry holds a newline if and only if one was stranded since the last commit, and each command of the history is framed if and only if the working entry held none when it was committed |
| DeviceModel.HistoryFramedExact | aesd-char-driver/main.c:238-298 | the whole history is framed if and only if no operation of the run commits while a stranded newline is in the working entry |
| DeviceModel.RecoveryExact | aesd-char-driver/main.c:238-298 | splitting the ring's content at newlines gives back the ring's commands if and only if none of those in the ring was committed that way; the same for the whole history |
| DeviceModel.StrandsExact | aesd-char-driver/main.c:238-298 | one operation on any device: afterwards the working entry is free of newlines if and only if the operation commits, or found it free of them and takes no fault exit behind an unscanned newline |
| DeviceModel.StrandedNewline | aesd-char-driver/main.c:238-243 | two writes, the first with a failed copy, after which a command holds two newlines |
| DeviceModel.WritesCommit | aesd-char-driver/main.c:245-298 | undisturbed writes of finished commands give exactly those commands as the history and an empty working entry |
| DeviceModel.FullEntryForever | aesd-char-driver/main.c:230-265 | from a state in which all but at most one byte of the working entry are taken, in every run in which no allocation exceeds the working entry's size, no command is ever committed again |
| DeviceModel.FullEntryExact | aesd-char-driver/main.c:230-265 | such a state is exactly one in which no single call can commit |
| DeviceModel.LargestCommand | aesd-char-driver/main.c:258-262 | a write that fills the working entry exactly, with its newline last, needs too large an allocation and leads there |
| DeviceModel.FragmentationIndependent | aesd-char-driver/main.c:230-300 | sending a command in any newline-free pieces and a last piece leaves the same device as sending it at once, whenever the whole fits |
| DeviceModel.ReadIsSlice | aesd-char-driver/main.c:150-197 | a successful read is a contiguous slice of the ring's content at the position plus the seek offset, empty only for an empty request or past the end |
| DeviceModel.ShortReadEndsCommand | aesd-char-driver/main.c:179-186 | a read never crosses the end of a command and is short only when it reaches that end |
| DeviceModel.PlainReadContinues | aesd-char-driver/main.c:151-194 | after a read anywhere inside the content, at a negative file position too, the file position asks for the next byte if and only if the seek offset is 0 |
| DeviceModel.PlainReadRepeats | aesd-char-driver/main.c:151-194 | a run of one write and one accepted seek after which two plain one-byte reads give the same byte |
| DeviceModel.SeekAccepts | aesd-char-driver/main.c:88-89 | call by call, for all 32-bit arguments: a seek passes both tests if and only if the command number is below ten and the offset is the largest one or lies inside the live command that sits in the slot of that number, or the command number is the largest one and the size found outside the array lets the offset pass |
| DeviceModel.SpinsExact | aesd-char-driver/main.c:88-96 | a seek passes both tests into a loop whose 8-bit index never reaches the command number if and only if that number is 0xFFFFFFFF and the first test lets the offset pass |
| DeviceModel.SeekAcceptance | aesd-char-driver/main.c:88-89 | the tests accept exactly the live positions, over all non-wrapping arguments, if and only if every live command is as long as the one whose slot is tested for its number |
| DeviceModel.SeekRightBeforeWrap | aesd-char-driver/main.c:88-95 | whenever the oldest entry is in slot 0 each call with a non-wrapping offset is accepted if and only if its position is live |
| DeviceModel.SeekWrongSlot | aesd-char-driver/main.c:88 | a run of eleven writes after which a position outside the oldest command is accepted |
| DeviceModel.SeekWrap | aesd-char-driver/main.c:88 | the largest 32-bit offset passes for every command number below ten and is never inside a command |
| DeviceModel.SeekThenRead | aesd-char-driver/main.c:91-98 | a read at 0 after an accepted seek to a live position serves that command's bytes from that offset |
| Lookup.Locate | aesd-char-driver/aesd-circular-buffer.c:41-48 | flat indexing: something is found if and only if the position is below the total, and it is the entry and offset whose prefix sum is the position |
| Lookup.InsideUnique | aesd-char-driver/aesd-circular-buffer.c:41-48 | a position lies in at most one entry |
| Lookup.SearchFrom | aesd-char-driver/aesd-circular-buffer.c:63-85 | the driver's loop with its `size_t` arithmetic agrees with flat indexing from any entry on |
| Lookup.SearchExact | aesd-char-driver/aesd-circular-buffer.c:74 | it agrees at every position if and only if the oldest entry is not empty |
| Lookup.SearchEmptyOldest | aesd-char-driver/aesd-circular-buffer.c:74 | with an empty oldest entry the subtraction wraps and every position is found in it |
| Lookup.SeekLookupInverse | aesd-char-driver/main.c:91-98 | seek and lookup are mutually inverse, both directions |
| Lookup.InsideReadsFlat | aesd-char-driver/aesd-circular-buffer.c:74-79 | the bytes at the found entry and offset are the bytes of the concatenation |
| CommandLog.LinesRejoin | aesd-char-driver/main.c:245-298 | dividing a stream into lines loses nothing |
| CommandLog.LinesRecover | aesd-char-driver/main.c:245-298 | splitting the concatenation of finished commands gives them back |
| CommandLog.LinesRecoverExact | aesd-char-driver/main.c:245-298 | and it does so only for finished commands |
| CommandLog.TotalAfterCommit | aesd-char-driver/main.c:277-285 | the total of the ring grows by the new command and shrinks by the one displaced |
| CircularBuffers.SlotIsNewest | aesd-char-driver/aesd-circular-buffer.c:99-118 | after n additions slot k holds the newest item whose number is congruent to k modulo ten, or nothing |
| CircularBuffers.SlotsAfterAdd | aesd-char-driver/aesd-circular-buffer.c:104-105 | an addition keeps that closed form and displaces nothing during the first ten, then the item added ten additions earlier |
| CircularBuffers.WindowSlot | aesd-char-driver/aesd-circular-buffer.c:63-67 | walking the slots from the oldest one visits the last ten items in order |
| CircularBuffers.IndicesAdvance | aesd-char-driver/aesd-circular-buffer.c:107-114 | the slot of the next addition, and of the oldest entry once the ring is full, moves by one modulo ten with every addition |
| CircularBuffers.CircularIncrement | aesd-char-driver/aesd-circular-buffer.c:141-151 | the next index is the index plus one modulo the number of slots, an index beyond the last goes to 0, and the flag says which happened |
| CircularBuffers.CircularBuffer.Init | aesd-char-driver/aesd-circular-buffer.c:123-129 | the ring represents the empty history |
| CircularBuffers.CircularBuffer.AddEntry | aesd-char-driver/aesd-circular-buffer.c:99-118 | the history grows by the entry, the closed form of slots, indices and flag is kept, and the result is the buffer of the entry ten back, or null |
| CircularBuffers.CircularBuffer.LiveSlot | aesd-char-driver/aesd-circular-buffer.c:63-67 | the walk from `out_offs` meets the live entries oldest first and reaches `in_offs` exactly at their end |
| CircularBuffers.CircularBuffer.FindEntryOffsetForFpos | aesd-char-driver/aesd-circular-buffer.c:49-89 | the loop finds what the search over the live sizes finds, in the corresponding slot |
| Devices.SizeUpdate | aesd-char-driver/main.c:285 | the unsigned update is exact also when the displaced entry is larger |
| Devices.SlotsAfterCommit | aesd-char-driver/main.c:278-293 | a commit adds one buffer to the slots and takes out exactly the one displaced |
| Devices.AccountedAfterCommit | aesd-char-driver/main.c:278-293 | allocated memory stays the working entry, one buffer per live command and the unowned ones |
| Devices.NextSlotBuffer | aesd-char-driver/main.c:389-391 | different slots own different buffers |
| Devices.AllSlotBuffers | aesd-char-driver/main.c:389-391 | all ten slots together own exactly the live commands' buffers |
| Devices.Device.constructor | aesd-char-driver/main.c:348-361 | the device starts empty with one allocation, and everything it is made of is new |
| Devices.Device.BeforeCommit | aesd-char-driver/main.c:277-285 | what the next slot holds and what a commit does to the total |
| Devices.Device.AddToRing | aesd-char-driver/main.c:277-293 | ring, size and memory after a commit; the displaced buffer is freed, once |
| Devices.Device.CopyOut | aesd-char-driver/main.c:258-266 | a fresh zero-terminated copy of the finished command |
| Devices.Device.CommitLine | aesd-char-driver/main.c:250-299 | the three ways a found newline ends, with the state and the memory after each |
| Devices.Device.ScanAndCommit | aesd-char-driver/main.c:249-302 | the scan commits up to the first new newline and drops the rest of the write |
| Devices.Device.WriteLocked | aesd-char-driver/main.c:230-304 | the write under `we_mutex` is the write of the model, with every access in bounds and no overflow in the capacity test |
| Devices.Device.Write | aesd-char-driver/main.c:206-308 | `aesd_write` is the write of the model on every outcome; a buffer goes astray exactly on the interrupted `cb_mutex` exit |
| Devices.Device.SearchIsExact | aesd-char-driver/main.c:157-160 | in every valid state the ring search is flat indexing |
| Devices.Device.LiveEntry | aesd-char-driver/main.c:168-176 | the slots from `out_offs` on hold the buffers and sizes of the live commands in order |
| Devices.Device.CopyEntry | aesd-char-driver/main.c:177-195 | the bytes of the entry from the offset on, cut to the count, with the access in bounds |
| Devices.Device.ReadLocked | aesd-char-driver/main.c:150-199 | the two loops give the read of the model |
| Devices.Device.Read | aesd-char-driver/main.c:134-204 | `aesd_read` is the read of the model and changes nothing |
| Devices.Device.SumBefore | aesd-char-driver/main.c:91-96 | the loop sums the sizes of the first live commands |
| Devices.Device.AdjustFileOffset | aesd-char-driver/main.c:78-104 | the seek of the model, as the code has it, with the mutex left locked on rejection |
| Devices.Device.Cleanup | aesd-char-driver/main.c:389-392 | every buffer in a slot and the working entry are freed once; only buffers that interrupted writes let go of remain |
| Devices.Device.Perform | aesd-char-driver/main.c:78-308 | any call is that call of the model; one buffer goes astray exactly when a write has copied its command and then gives up waiting for `cb_mutex` |
| Devices.Lifetime | aesd-char-driver/main.c:78-392 | for every run of calls that return: a new device gives the model's replies and ends as the model's device, and after cleanup one buffer per write that gave up is still allocated, so none if there was no such write |
| Devices.LeakedCopy | aesd-char-driver/main.c:258-275 | a run of one write that leaves one buffer allocated for good |
| Interleaving.RunInv | aesd-char-driver/main.c:134-308 | every state of every run of any number of threads satisfies the invariant on locks, places, size, record and deliveries |
| Interleaving.EveryRunAtomic | aesd-char-driver/main.c:147-307 | in every state of every run the recorded operations executed one after the other give the recorded replies and the visible state; each is one of the run's threads', recorded once, with its result delivered to its caller |
| Interleaving.CallsInOrder | aesd-char-driver/main.c:134-308 | in every state of every run each thread's calls, in order, are its delivered operations and the one it is in, and its recorded operations and the one it is in until that takes effect |
| Interleaving.EveryResultServes | aesd-char-driver/main.c:134-308 | every delivered result is that of one call of the run, made at one state and returned at a later one |
| Interleaving.ServesMarks | aesd-char-driver/main.c:134-308 | its operation is the one called there and is recorded between the call and the return |
| Interleaving.RealTimeOrder | aesd-char-driver/main.c:147-307 | of two calls of a run, one made after the other had returned, the later is recorded after the earlier |
| Interleaving.EveryReadIsSlice | aesd-char-driver/main.c:147-201 | for every successful read of every run there is a state in which the reader holds `cb_mutex`, exactly the operations recorded before the read are recorded, and the bytes read are a slice of the ring's content at the position plus the seek offset |
| Interleaving.ConcurrentHistory | aesd-char-driver/main.c:206-308 | with any number of threads and no faulted write the history is the lines of the stream of cut writes in record order, and the ring's content splits back into its commands |
| Interleaving.NoHalfCommitSeen | aesd-char-driver/main.c:272-294 | `cb_size` is the live total whenever `cb_mutex` is free or held outside the commit itself, and no two threads hold the same mutex |
| Interleaving.WriteStepAtomic | aesd-char-driver/main.c:228-307 | every step of a write keeps the record sequentially explainable |
| Interleaving.RingStepAtomic | aesd-char-driver/main.c:85-201 | every step of a read or a seek does too |
| Interleaving.StepKeepsSize | aesd-char-driver/main.c:277-285 | the size is right except between the two halves of a commit, and then by exactly the pending difference |
| Interleaving.AbandonedExact | aesd-char-driver/main.c:85-100 | a caller has returned and left `cb_mutex` locked if and only if some uninterrupted seek was made whose arguments fail the tests on the commands committed before it |
| Interleaving.LostExact | aesd-char-driver/main.c:85-100 | `cb_mutex` is locked and never unlocked again if and only if a seek that had got it was made for arguments that fail the tests on the ring at that moment or whose loop is endless |
| Interleaving.FrozenWhenLost | aesd-char-driver/main.c:85-100 | once the mutex is lost, in either way, it stays so and ring, size and seek offset never change again |
| Interleaving.BlockedForever | aesd-char-driver/main.c:85-96 | from then on every call that waits for `cb_mutex` uninterrupted, and every write behind one that does, stays where it is in all later states and never gets a step |
| Interleaving.SpinsForever | aesd-char-driver/main.c:91-96 | a thread in the endless loop is there, with `cb_mutex`, in every later state |
| Interleaving.EndlessSeekSpins | aesd-char-driver/main.c:88-96 | a run of one thread whose seek, with arguments (0xFFFFFFFF, 0), ends up in that loop |
| Interleaving.RejectedSeekBlocks | aesd-char-driver/main.c:88-89 | a run of one thread that gets stuck this way |
| Interleaving.DeadlockFree | aesd-char-driver/main.c:85-306 | while some thread is in a call that is neither in the endless loop nor waiting for a lost mutex, some thread outside that loop can step |
| Interleaving.EveryScheduleEnds | aesd-char-driver/main.c:85-306 | for all calls whatever their arguments: without new calls no schedule has more than a bounded number of steps outside the endless loop, and one that only the loop can continue has finished every call except those in the loop and those that wait for a lost mutex |
| Interleaving.EveryCallCanComplete | aesd-char-driver/main.c:78-308 | from every reachable state in which the mutexes it needs are free, a call of any kind and with any faults, except an endless seek, can be made by any idle thread and gets to its end if that thread is left alone, with the reply and the device of the sequential model and the other threads where they were |
| Interleaving.EveryLineCanBeWritten | aesd-char-driver/main.c:228-307 | in particular a finished line that fits becomes the newest command behind what was pending, and its length is returned |
| Server.ReadAdvances | server/aesdsocket.c:362-364 | each `pread` of the drain gives the next bytes of the echo, none only at its end |
| Server.Pread | server/aesdsocket.c:364 | the same for the device class; it fails exactly when interrupted, or when the copy faults and there are bytes to copy |
| Server.Drain | server/aesdsocket.c:360-387 | for every buffer length and seek offset the loop ends; it fails if and only if its trouble is met: the interrupted read is made, the faulting read has bytes to copy, or the socket takes fewer bytes than that read gave; then exactly what came before it was sent, and otherwise all of the content from the offset on; the position stays within `int` |
| Server.DispatchChunk | server/aesdsocket.c:331-358 | one chunk becomes one seek or one write with its outcome; a write that blocks has put its bytes into the working entry and keeps `we_mutex`, a seek that never comes back keeps `cb_mutex` |
| Server.DispatchOutcome | server/aesdsocket.c:331-358 | when a chunk blocks, fails, spins or goes through, and what it leaves: a seek command never touches history or unfinished line, a failed write changes nothing, a blocked write leaves its bytes behind and keeps `we_mutex` |
| Server.ServeChunk | server/aesdsocket.c:331-387 | and is answered by the whole echo if it did not fill the buffer |
| Server.AppendData | server/aesdsocket.c:314-388 | the loop computes the session function: chunks in order, an echo after each that did not fill the buffer |
| Server.ServeAppend | server/aesdsocket.c:314-388 | serving two lists of chunks one after the other is serving their concatenation, and a connection that ends in the first never reads the second |
| Server.EchoTheorem | server/aesdsocket.c:314-388 | on a device whose `cb_mutex` is not lost, a client that mixes data that fits with seek commands to live positions that are accepted, in any order, is served to the end; each echo is the last ten complete lines of all data received so far, from the seek position then in force on; history and unfinished line afterwards are those of all data received |
| Server.FullDeviceEndsSession | server/aesdsocket.c:343-349 | a chunk the device has no room for ends the connection after what came before it has been served, and leaves nothing behind |
| Server.SeekEcho | server/aesdsocket.c:331-337 | an accepted seek command is answered with everything from that byte of that command on |
| Server.SeekEndsServiceExact | server/aesdsocket.c:331-337 | a seek command leaves `cb_mutex` locked if and only if its arguments fail the tests or make the loop endless |
| Server.LostMutexEndsService | server/aesdsocket.c:331-387 | after that no connection gets an echo or commits anything, whatever it sends; only data chunks that fill the buffer are still taken, and none once a write has blocked |
| Connections.EveryScheduleMerges | server/aesdsocket.c:314-358 | for any number of connections, any schedule and any faults: the device is the result of the calls it received with the replies it gave; every one of these is a connection's, and each connection's are its chunks, whole and in order; a connection goes on after a write if and only if the write succeeded; at most one holds the mutex |
| Connections.StepKeepsInv | server/aesdsocket.c:330-350 | every step keeps that |
| Connections.LinesReplay | server/aesdsocket.c:339-350 | any calls whose writes are undisturbed complete lines: all writes succeed and their buffers are the history |
| Connections.WholeLinesSurvive | server/aesdsocket.c:339-350 | for all inputs whose data chunks are complete lines and every schedule without write faults: the device's history is the data chunks in the order sent, all of them the connections' own and each connection's in its order, whatever seek commands are mixed in, and no connection is ended by a write |
| Connections.AllOverOrWaiting | server/aesdsocket.c:314-358 | no connection can go on undisturbed if and only if each has sent all of its chunks, was ended by a failed write, or waits: in a device call that needs a lost `cb_mutex` or never ends, or for `dfdmutex` behind one |
| Connections.FailedWriteCloses | server/aesdsocket.c:339-349 | a write that meets a fault ends its connection for good and gives `dfdmutex` back |
| Connections.StepLeavesLess | server/aesdsocket.c:314-358 | every step, disturbed or not, lowers a bound on the steps still to come |
| Connections.Completes | server/aesdsocket.c:314-358 | every schedule can be continued undisturbed until nothing can go on |
| Connections.EveryLineArrives | server/aesdsocket.c:314-358 | for complete lines and no write faults: every schedule after which nothing can go on has sent every chunk of every connection, and the history is all of them |
| Connections.SomeScheduleSendsAll | server/aesdsocket.c:314-358 | and there is such a schedule |
| Directories.DepthExact | finder-app/writer.c:187-231 | exactly the prefixes up to the deepest existing one are directories |
| Directories.CreateNext | finder-app/writer.c:203-209 | making the next missing directory keeps the file system closed and lowers by one what is missing |
| Directories.Climb | finder-app/writer.c:203-209 | what `mkdir` answers at each missing ancestor |
| Directories.CostClosed | finder-app/writer.c:187-209 | the number of `mkdir` calls of several passes |
| Directories.FileSystem.Mkdir | finder-app/writer.c:158-160 | `mkdir` with its POSIX outcomes |
| Directories.FileSystem.MakeOne | finder-app/writer.c:200-213 | one outer pass makes the shallowest missing ancestor, on the attempt numbered by how many are missing, or gives up after 254 |
| Directories.FileSystem.MkDirR | finder-app/writer.c:172-231 | exact result, directories made (shallowest first) and number of `mkdir` calls for every path: k(k+1)/2 calls up to 254 missing, 0 returned only up to 253, nothing made beyond 254 or with a file in the way |
| Directories.FileSystem.OpenFile | finder-app/writer.c:116-136 | the file is opened if and only if it is no directory, no file is in the way and at most 254 directories are missing; otherwise nothing changes |

## Left out

- Devices.Device.AdjustFileOffset: for a command number of ten or more the code reads a size outside the array, which C leaves undefined; the model takes any value for it. Calls that never return are outside the precondition of the method; `Interleaving` has them.
- Devices.Device.constructor: a failed allocation of the working entry is not modelled; then there is no device.
- Devices.Device.Write: `copy_from_user` is a copied prefix and a count; what it does to bytes beyond the prefix is not modelled. The flag `we.complete` is never read and is not part of the model.
- Server.AppendData: interrupted device calls, socket errors and the polling of the socket are not part of this loop; a chunk that is a seek command is given as such (`find_ioc_command` and `parse_ioc_command` are not modelled). Failures while draining are in Server.Drain.
- Interleaving: whether a lock attempt will be interrupted is fixed when the call is made; fairness between waiting threads is not assumed.
- `Interleaving` has the ring as a value; that slots and buffers hold that value, with every access in bounds, is proved in `Devices` for calls one after the other.
- The reads that answer clients are not steps of `Connections`: they change nothing on the device, so its schedules include those of the server. A connection that would wait in such a read for a lost `cb_mutex` goes on there, and one whose seek never comes back takes no further step. A system call that the kernel restarts by itself counts as a new call.
- Directories.FileSystem.MkDirR: paths are lists of components; repeated slashes, permissions, full disks and other causes of failure of `mkdir` and `open` are not modelled.
- `aesd_open`, `aesd_release`, `aesd_llseek`, registration of the device and debug printing: plumbing over kernel functions that are not part of this model.
- The server's sockets, signals, threads' start and end, timestamps and its configuration with a plain data file.
- `writer.c` main, argument handling and `print_args`; the directories `examples`, `student-test` and all scripts.
