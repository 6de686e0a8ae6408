# Verified models of the C exercises' hard cores

This project models the parts of the repository that hold real state machines, loops or arithmetic,
and proves what they keep and compute for every size, every input and every interleaving. The
constants of the C code (`QUEUE_SIZE`, `MAX_THREADS`, `NUM_STORES`, `N`, `MAX_ABONENTS`, `MAX_ARGS`,
the word width, the window height) are parameters throughout.

Code that works on one thread is modelled in its own form: classes with the C fields, arrays updated
in place and the loops of the source, each method proved against a function of the old state. The
three multi-threaded programs are modelled as step machines. A state holds the shared memory and one
program counter per thread; `Next` is one atomic step of one thread, `Run` a whole schedule, and the
theorems quantify over all schedules. In `Market` each shared read and each shared write is a step of
its own; in the queue and the pool each C statement on shared data is. So mutual exclusion has to be
proved from the mutexes. Fields described as history record the run and are never
read by a step.

Files:

- `ClientRing.dfy`, `ClientQueueProtocol.dfy`: the bounded client queue and its locking protocol.
- `Market.dfy`: stores, customers and the loader.
- `ThreadPool.dfy`: the pool of thread ids.
- `Spiral.dfy`: the spiral fill.
- `HeaderChecksum.dfy`: the IPv4 header checksum.
- `PhoneBooks.dfy`: the two phone books and how they relate.
- `PipelineSplit.dfy`: `strtok` on one shared buffer.
- `Substring.dfy`, `BinaryPrinter.dfy`, `FileManager.dfy`: three smaller loops.
- `Common.dfy`, `Modular.dfy`: sums and division facts used by the others.

`dafny verify dfyconfig.toml` checks everything.

## Findings

- Client queue: with the `while` re-test, one `pthread_cond_signal` per operation is enough. A state in
  which nothing but a new connection or a spurious wake-up can happen is an idle server with every
  accepted client already handed out (`QuietMeansIdle`), and between connections the threads take a
  bounded number of steps to get there (`WorkIsBounded`, `EveryClientIsServed`).
- Thread-id pool: `main` reads the pipe after every successful `pthread_create`, so the server handles
  one client at a time (`OneClientAtATime`). An id is lost whenever a creation fails. At accept, another
  client can ever be served if and only if fewer creations have failed than there are ids
  (`ServesAgainExactly`). Once all are lost `main` waits (`WaitExactlyWhenAllLost`) on a condition that
  only `main` ever signals, for ever (`WaitIsForever`); every run can get there (`WaitIsReachable`).
- Checksum: `sockets/hw7/client.c` does not zero the check field before summing. The header sent
  verifies exactly when the field happened to hold 0x0000 or 0xFFFF (`FillIpHeader`).
- Phone books: the two deletions leave the same records exactly when the first record found under the
  name is the same in both (`DeletionsAgreeExactly`, `RunsAgreeExactly`); with duplicate names it may not be
  (`DuplicatesCanDiffer`), but the number of records under each name always agrees
  (`BooksAgreeOnNames`).
- Substring search differs from `strstr` for two empty strings and nowhere else
  (`AgreesWithStrStrExactly`).

## Model

| member | source | states |
|---|---|---|
| ClientRing.ClientQueue.constructor | sockets/hw2/server queue/server.c:30-37 | a new queue is well formed and empty |
| ClientRing.ClientQueue.Add | sockets/hw2/server queue/server.c:39-49 | the caller must wait exactly when the ring is full; otherwise the socket is appended and the ring is the one the protocol's three writes give |
| ClientRing.ClientQueue.Remove | sockets/hw2/server queue/server.c:51-62 | the caller must wait exactly when the ring is empty; otherwise the oldest socket is returned and the rest keep their order |
| ClientRing.InsertAppends | sockets/hw2/server queue/server.c:44-46 | the three writes of an insertion append to the contents, wrap-around included, and keep rear == (front + count) % size |
| ClientRing.RemoveDropsFirst | sockets/hw2/server queue/server.c:56-58 | the two writes of a removal drop the first entry of the contents |
| ClientQueueProtocol.InvStep | sockets/hw2/server queue/server.c:39-81 | every step of every thread keeps the whole invariant: mutex ownership, ring against history, accepted sockets, tickets, wake-ups |
| ClientQueueProtocol.WakeStep | sockets/hw2/server queue/server.c:41-59 | the wake-up invariant, with its corrections for signals about to be sent, is kept under barging, spurious wake-ups and signals that wake several threads |
| ClientQueueProtocol.RingStep | sockets/hw2/server queue/server.c:44-58 | with the mutex, single reads and writes keep front, rear, count and the slots in line with what was added and removed |
| ClientQueueProtocol.MutualExclusion | sockets/hw2/server queue/server.c:40-60 | at most one thread is between lock and unlock in any reachable state |
| ClientQueueProtocol.Fifo | sockets/hw2/server queue/server.c:30-62 | in every run, with the mutex free, the sockets added are those removed, in order, followed by the ring contents |
| ClientQueueProtocol.LeavesInTurn | sockets/hw2/server queue/server.c:39-62 | an entry at position k is the (k+1)-th to be removed from then on, whatever the schedule |
| ClientQueueProtocol.OneWorkerPerClient | sockets/hw2/server queue/server.c:64-81 | two workers never hold the same delivery, and each holds an accepted socket |
| ClientQueueProtocol.NoLostWakeup | sockets/hw2/server queue/server.c:41-59 | in every reachable state, a consumer asleep means count is at most the woken consumers yet to re-test, plus one for a signal about to be sent and one for an entry being taken; the producer asleep means the ring is full, or one short with its signal about to be sent; with the mutex free neither correction applies |
| ClientQueueProtocol.NeverAllAsleep | sockets/hw2/server queue/server.c:41-55 | the producer and all consumers are never asleep together |
| ClientQueueProtocol.HolderCanMove | sockets/hw2/server queue/server.c:40-60 | whoever holds the mutex has a next step |
| ClientQueueProtocol.QuietMeansIdle | sockets/hw2/server queue/server.c:64-129 | if only a connection or a spurious wake-up can come next, the ring is empty and every accepted socket has been delivered, in order |
| ClientQueueProtocol.WorkIsBounded | sockets/hw2/server queue/server.c:39-81 | in every run with w workers the threads take at most 2w steps, 17 + 2w more for each connection and 2 more for each spurious wake-up; own steps are all actions but connections, failed accepts and spurious wake-ups |
| ClientQueueProtocol.EnabledExactly | sockets/hw2/server queue/server.c:39-81 | when each action is possible: a thread is stopped only by the mutex or by sleep, and a sleeper may wake on its own at any time |
| ClientQueueProtocol.SignalWakesAny | sockets/hw2/server queue/server.c:47 | the signal may wake any one sleeper or any larger group, and touches nobody else |
| ClientQueueProtocol.EveryTakenClientIsHandled | sockets/hw2/server queue/server.c:64-79 | in every reachable state each client taken off the ring was handled by the worker that took it at some point of the schedule, or is still in that worker's hands inside the critical section; in a quiet state all were handled |
| ClientQueueProtocol.EveryClientIsServed | sockets/hw2/server queue/server.c:39-81 | without connections and spurious wake-ups a run from any reachable state has a bounded length, and where it can go no further every accepted socket has been handed out, in order, and handled by its worker |
| Market.InvStep | pthread/task3.c:21-62 | every step of every customer and of the loader keeps locks, conservation, purchase bound and exit invariant |
| Market.Conservation | pthread/task3.c:25-30 | stock plus what the needs went down by equals initial stock plus deliveries in every reachable state, corrected by the purchases in flight, of which there are none while no store is locked |
| Market.PurchaseBound | pthread/task3.c:23-34 | purchases that take a non-zero amount number at most the stores plus the sum of ceil(initial need / increment), in every run |
| Market.CustomerKeepsItsInv | pthread/task3.c:23-30 | each purchase from a store emptied before lowers the need by an increment at least while it was positive |
| Market.CustomerKeepsStoreInv | pthread/task3.c:28-47 | a store emptied once always holds a multiple of the increment |
| Market.SatisfiedCounts | pthread/task3.c:37-39 | in every reachable state the counter equals the number of customers past their increment |
| Market.LoaderExitIsSound | pthread/task3.c:36-58 | when the loader has left, every customer is past its increment and needs nothing more |
| Market.BlockedHoldsNoStore | pthread/task3.c:25-49 | a thread holding a store's mutex always has a next step |
| Market.CounterHolderCanMove | pthread/task3.c:37-59 | a thread holding the counter's mutex always has a next step |
| Market.EnabledExactly | pthread/task3.c:21-62 | a thread is stopped only by the counter's mutex and by its end; no store ever stops it |
| Market.StuckMeansFinished | pthread/task3.c:21-62 | no deadlock: a reachable state without a next step is the end of the program |
| Market.EndIsReachableExactly | pthread/task3.c:21-62 | no livelock trap: from a reachable state some schedule ends all threads if and only if there is a store or nobody needs anything any more |
| Market.SoloVisit | pthread/task3.c:25-30 | the single steps between trylock and unlock amount to one transaction on the store |
| Market.SoloPass | pthread/task3.c:24-34 | left alone, a customer's scan makes exactly that transaction at the first free store, or none |
| Market.SoloRestock | pthread/task3.c:45-53 | left alone, the loader's scan adds the increment once, at the first free store, or not at all exactly when every store left to try is locked, and goes on to the counter |
| Market.Floor.Visit | pthread/task3.c:24-34 | in place: buys out the first free store, leaves the other stores and all locks as they were, and what the need loses the stock loses |
| Market.Floor.Restock | pthread/task3.c:45-53 | in place: adds the increment to the first free store only, if there is one |
| ThreadPool.IdStack.constructor | sockets/hw2/pserver pool/server.c:81-83 | the start-up loop fills the stack with 0, 1, ... in order |
| ThreadPool.IdStack.Take | sockets/hw2/pserver pool/server.c:94-98 | pops the last id; none exactly when the stack is empty |
| ThreadPool.IdStack.Return | sockets/hw2/pserver pool/server.c:116 | pushes the id on the stack |
| ThreadPool.InvStep | sockets/hw2/pserver pool/server.c:38-119 | every step of main and of every worker keeps the mutex and id invariants |
| ThreadPool.IdsArePartitioned | sockets/hw2/pserver pool/server.c:38-119 | in every reachable state each id is in exactly one of: stack, main, a worker, the pipe, lost to a failed creation |
| ThreadPool.StackAtAccept | sockets/hw2/pserver pool/server.c:85-118 | at each accept the stack is 0, 1, ... short of one id per failed creation, and nothing is in transit |
| ThreadPool.OneClientAtATime | sockets/hw2/pserver pool/server.c:105-113 | at most one worker, the newest, has yet to return its id, and main is then waiting at the pipe |
| ThreadPool.OneAttemptPerConnection | sockets/hw2/pserver pool/server.c:85-113 | in every run the workers created and the creations failed number the connections accepted, less the one main is still dealing with; a failed accept takes no id |
| ThreadPool.EnabledExactly | sockets/hw2/pserver pool/server.c:38-119 | when each action is possible: main is stopped by accept, mutex, empty pipe and sleep, a worker by the mutex and its end |
| ThreadPool.WaitExactlyWhenAllLost | sockets/hw2/pserver pool/server.c:94-96 | the test in front of the condition wait sends main to sleep exactly when as many creations have failed as there are ids |
| ThreadPool.WaitIsReachable | sockets/hw2/pserver pool/server.c:85-110 | from every accept of every run some continuation reaches that wait, for every number of ids |
| ThreadPool.WaitIsForever | sockets/hw2/pserver pool/server.c:94-117 | from that wait on no worker is ever created, under any schedule |
| ThreadPool.ServesAgainExactly | sockets/hw2/pserver pool/server.c:85-118 | at accept, some continuation creates another worker if and only if fewer creations have failed than there are ids |
| ThreadPool.StuckOnlyAtAcceptOrWait | sockets/hw2/pserver pool/server.c:93-118 | main never waits in vain at the pipe or for the mutex, and array bounds hold: without a next step it is at accept with all workers done, or in the final wait |
| Spiral.Fill | arrays/task4.c:8-28 | the matrix is the closed form; the values 1 to n * n are written in order, each to its own cell, no cell twice, all within bounds; exactly ceil(n / 2) laps |
| Spiral.StartClosed | arrays/task4.c:11-28 | after k laps the next value is 1 + n * n - max(0, n - 2k) squared |
| Spiral.CellClosedForm | arrays/task4.c:11-28 | with k = min(i, j, n-1-i, n-1-j) and m = n - 2k the cell holds 1 + n * n - m * m plus its clockwise offset along ring k |
| Spiral.OuterRing | arrays/task4.c:12-27 | the outermost ring runs from 1 along the top row, down the last column, back along the bottom row and up the first column |
| Spiral.InnerSpiral | arrays/task4.c:11-28 | inside it lies the spiral of size n - 2, moved up by 4n - 4 |
| Spiral.Bijection | arrays/task4.c:11-28 | the closed form maps the cells one to one onto 1 .. n * n, with `CellOf` as inverse |
| Spiral.CellOfHolds | arrays/task4.c:11-28 | every value from 1 to n * n has a cell |
| Spiral.ConsecutiveAreAdjacent | arrays/task4.c:12-26 | consecutive values lie in cells sharing an edge (k = 0 is the whole matrix) |
| HeaderChecksum.Checksum | sockets/hw7/client.c:27-38 | the result, as 16 bits, completes the sum of the ten words, written out over all twenty bytes, to a multiple of 65535, and is 0xFFFF only for a header of zeros; it fits a C short; the carry loop ends within two rounds |
| HeaderChecksum.FoldIsReduced | sockets/hw7/client.c:34-36 | the carry loop yields the representative modulo 65535 in 1 .. 65535, and 0 for 0 alone |
| HeaderChecksum.OrderDoesNotMatter | sockets/hw7/client.c:30-36 | the sum is the same for any order of the words (section 2(A) of RFC 1071) |
| HeaderChecksum.ByteOrderIndependence | sockets/hw7/client.c:29-36 | swapping the bytes of every word swaps the bytes of the sum (section 2(B) of RFC 1071) |
| HeaderChecksum.SameBytesOnBothHosts | sockets/hw7/client.c:27-38 | hosts of either byte order store the same two check bytes |
| HeaderChecksum.VerifiesExactly | sockets/hw7/client.c:27-38 | after storing the checksum the header verifies if and only if the check word held 0, or 0xFFFF among words not all zero |
| HeaderChecksum.SetFields | sockets/hw7/client.c:74-82 | the header bytes main sets; identification and check are left as they were |
| HeaderChecksum.StoreChecksum | sockets/hw7/client.c:83 | only the check word changes, to the complement of the sum it was part of |
| HeaderChecksum.FillIpHeader | sockets/hw7/client.c:74-83 | the packet's header verifies, as the big-endian sum written out over its twenty bytes being a multiple of 65535, if and only if the two check bytes were both 0x00 or both 0xFF before |
| PhoneBooks.ArrayBook.constructor | structs/task.c:22-23 | the book starts empty with all slots zero |
| PhoneBooks.ArrayBook.AddAbonent | structs/task.c:60-74 | refuses exactly when full and then keeps the book as it is, else appends; slots above count stay zero |
| PhoneBooks.ArrayBook.DeleteAbonent | structs/task.c:77-94 | removes exactly the first record with the name, keeps the order of the rest, zeroes the freed slot |
| PhoneBooks.ArrayBook.SearchAbonent | structs/task.c:96-107 | prints the records with the name, in order |
| PhoneBooks.ArrayBook.PrintAbonents | structs/task.c:109-114 | prints all records in order |
| PhoneBooks.ArrayBook.Session | structs/task.c:26-55 | over any sequence of menu choices the array refines the sequence model, and each choice prints what the model says |
| PhoneBooks.ShiftRunsCompose | structs/task.c:26-55 | a session in two pieces gives the book and the output of the two one after the other |
| PhoneBooks.RefusedAddition | structs/task.c:61-64 | a refused addition can be struck from a session without changing the final book or anything else that is printed |
| PhoneBooks.StruckSession | structs/task.c:61-64 | striking all refused additions leaves a session that never overfills and ends with the same book |
| PhoneBooks.ArrayBook.Choose | structs/task.c:36-54 | one choice: searching, listing and invalid choices keep the book, listing prints it all, and only searching and listing print records |
| PhoneBooks.DynamicBook.AddAbonent | dynamic/task.c:61-76 | appends to the reallocated array |
| PhoneBooks.DynamicBook.DeleteAbonent | dynamic/task.c:78-97 | overwrites the first record with the name by the last one and drops the last |
| PhoneBooks.DynamicBook.SearchAbonent | dynamic/task.c:99-110 | prints the records with the name, in order |
| PhoneBooks.DynamicBook.PrintAbonents | dynamic/task.c:112-117 | prints all records in order |
| PhoneBooks.DynamicBook.Session | dynamic/task.c:26-55 | over any sequence of menu choices the array refines the sequence model, and each choice prints what the model says |
| PhoneBooks.SwapRunsCompose | dynamic/task.c:26-55 | a session in two pieces gives the book and the output of the two one after the other |
| PhoneBooks.DynamicBook.Choose | dynamic/task.c:36-54 | one choice: searching, listing and invalid choices keep the book, listing prints it all, and only searching and listing print records |
| PhoneBooks.BooksAgreeOnNames | structs/task.c:60-94 | within capacity both books hold equally many records under each name after every run, duplicates included |
| PhoneBooks.DeletionsAgreeExactly | dynamic/task.c:83-95 | from equal records the two deletions leave equal records if and only if the name is absent or the first match is the same record |
| PhoneBooks.RunsAgreeExactly | dynamic/task.c:61-97 | over runs within capacity from equal records, the books hold the same records after every command if and only if every deletion finds the same record first in both |
| PhoneBooks.AgreeingBooksPrintTheSame | dynamic/task.c:99-117 | books that agree throughout print the same records, up to order, at every search and listing |
| PhoneBooks.BooksAgreeOnRecords | dynamic/task.c:61-110 | where a stored name determines its record, both books hold the same records after every command within capacity, and every search and listing prints the same records, up to order |
| PhoneBooks.DistinctRunsAreKeyed | structs/task.c:60-94 | sessions that add only new, pairwise distinct names are among those |
| PhoneBooks.MatchingCounts | structs/task.c:101-106 | a search finds every copy of every record with the name and nothing else |
| PhoneBooks.MatchingIsSelection | structs/task.c:101-106 | a search prints the records at exactly the positions with the name, in increasing order |
| PhoneBooks.MatchingKeepsOrder | structs/task.c:101-106 | a search prints in book order |
| PhoneBooks.DuplicatesCanDiffer | dynamic/task.c:85 | a session from the empty book, for every capacity of three or more, after which the two books hold different records under one name |
| PipelineSplit.Shell.StrTok | pipes/task3.c:26-27 | one strtok call finds the first token, plants a NUL behind it, changes nothing else and goes on behind it (section 7.24.5.8 of ISO/IEC 9899:2011) |
| PipelineSplit.Shell.FillArgs | pipes/task3.c:30-36 | slot j points at word j for every j below both the number of words and slots - 1, the next slot is NULL, and nothing outside the segment is written |
| PipelineSplit.Shell.SplitPipeline | pipes/task3.c:24-44 | two segments are found exactly when the line has them; both vectors then list the words of their own segment, read from the final buffer |
| PipelineSplit.TwoSegments | pipes/task3.c:26-29 | the first two segments lie one behind the other, each closed by its own NUL |
| PipelineSplit.CutFacts | pipes/task3.c:26-43 | a call never writes outside the text it cuts and leaves the rest of it to be cut the same way |
| PipelineSplit.TokensSplit | pipes/task3.c:26-43 | the tokens of a text with a delimiter in it are those in front of it followed by those behind it |
| PipelineSplit.SplitOfJoin | pipes/task3.c:26-43 | words with one delimiter between each two are split into the same words |
| Substring.FindSubstring | pointers/task4.c:4-21 | the least position of an occurrence below the length, or NULL exactly when there is none, within length times pattern length inner rounds |
| Substring.OccursExactly | pointers/task4.c:9-16 | an occurrence at i splits the string into i characters, the pattern and a rest |
| Substring.AgreesWithStrStrExactly | pointers/task4.c:4-21 | equal to strstr (section 7.24.5.7 of ISO/IEC 9899:2011) if and only if the strings are not both empty |
| BinaryPrinter.PrintBinary | byte_ops/task3.c:12-26 | at every word width, the digit k places from the right is bit k, and the digits printed hold the number |
| BinaryPrinter.CountOnes | byte_ops/task3.c:3-10 | counts, from the low end, exactly the places where the printer prints a 1 |
| BinaryPrinter.ReadBack | byte_ops/task3.c:12-26 | reading the printed digits gives the number back |
| BinaryPrinter.NumeralIsCanonical | byte_ops/task3.c:13-24 | only digits, and no leading zero except in "0" |
| BinaryPrinter.CanonicalIsPrinted | byte_ops/task3.c:12-26 | every canonical numeral is the one printed for its value |
| BinaryPrinter.PrintingIsInjective | byte_ops/task3.c:12-26 | different numbers print differently |
| BinaryPrinter.OnesAreBits | byte_ops/task3.c:3-26 | the number of 1 digits printed is the number of bits set |
| FileManager.Nearest | file system/fm/file_manager.c:99-109 | the offset meant shows the cursor, and no other offset showing it is nearer |
| FileManager.Panel.ListFiles | file system/fm/file_manager.c:29-59 | the listing overwrites the front of the list and sets the count; a failed opendir changes nothing |
| FileManager.Panel.HandleNavigation | file system/fm/file_manager.c:94-126 | the cursor moves by one within the list, and not at all at its ends; the scroll moves by one exactly when the cursor leaves the window, to the nearest offset; entering a directory resets both, Enter on a file nothing |
| FileManager.Panel.DisplayPanel | file system/fm/file_manager.c:73-91 | each row shows its file, the cursor's row is drawn, only it is highlighted, and no row is blank while files could fill the window |
| FileManager.NavigateKeepsView | file system/fm/file_manager.c:94-126 | every key keeps the cursor inside the list and the window and the window inside the list |
| FileManager.Manager.constructor | file system/fm/file_manager.c:26-150 | start-up lists both directories and puts both cursors in view on the first row |
| FileManager.Manager.HandleKey | file system/fm/file_manager.c:175-188 | Tab changes the active panel and neither view; every other key keeps the choice of panel and acts on the active one only |
| FileManager.Manager.Session | file system/fm/file_manager.c:152-189 | the main loop carries out the keys up to the first q, and both cursors stay in view |
| FileManager.PressAll | file system/fm/file_manager.c:152-189 | over every key run both panels stay in view |
| FileManager.TabsAlternate | file system/fm/file_manager.c:182-184 | over every run the first panel is active at the end exactly when the number of Tabs before the first q has the parity of the start |
| FileManager.TabsWithoutQuit | file system/fm/file_manager.c:182-184 | the count of Tabs is the number of positions holding one, in a run without q |
| FileManager.TabReachesOther | file system/fm/file_manager.c:179-184 | after a Tab the keys up to the next Tab reach only the other panel |
| FileManager.QuitEnds | file system/fm/file_manager.c:185-187 | keys after a q do not matter |
| FileManager.InactiveUntouched | file system/fm/file_manager.c:179-184 | without a Tab, a run leaves the other panel as it was |
| FileManager.DownThenUp | file system/fm/file_manager.c:96-111 | k times Down and k times Up bring the cursor back |

## Left out

- Sockets, pipes, processes, the file system and the terminal: accept, connection ends, thread creation, directory listings and key presses are choices of the environment.
- The client programs, the other servers, and the message-queue, shared-memory and signal exercises: plumbing with fixed messages.
- `sockets/hw4`, `sockets/hw5`, `sockets/hw6` and the small array, byte and calculator exercises: easy members or smaller cases of what is here.
- Market, ThreadPool and ClientQueueProtocol: the interleavings are step machines on values, not methods on shared objects, since their point is how single reads and writes of different threads mix; the ring, the stores and the id stack are also given as classes updated in place, without interference.
- Threads start in any order and at any time; that `main` creates them one after another is not modelled.
- ThreadPool: a write to the pipe always succeeds, and the client socket and the heap block of a worker are not tracked.
- Machine overflow of stock and need totals, and of the counters, which are unbounded integers here.
- Input longer than its buffer, and directories with more entries than a panel has slots.
- PhoneBooks: a record is three strings; the bytes behind a string's NUL, and allocation failures, are not modelled.
- PipelineSplit: the branch for a single command, which has no bound on its arguments, and the running of the commands.
- PipelineSplit.Shell.SplitPipeline: does not cover a line whose first byte is NUL; `strlen` is then 0 and the C code writes in front of the buffer.
- HeaderChecksum: the Ethernet and UDP headers and the payload; the UDP checksum is the constant 0.
