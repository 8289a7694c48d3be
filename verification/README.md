# Verification of the network and concurrency programs

A Dafny model of the parts of this repository whose correctness is not obvious from one function: the DNS
forwarder's name handling, three thread protocols, the Internet checksum, and four small programs on lists and trees.
Code that rewrites buffers or nodes in place is modelled by methods over arrays and objects; each is proved against a
specification on values, and the main results are lemmas about those specifications. The thread programs are
step relations: an event is what one thread does between two points where another may run, and a claim about every
run is a claim about every list of events that can happen in turn.

| file | contents |
|---|---|
| Bytes.dfy, CIntegers.dfy, Sequences.dfy, Sums.dfy | C strings and octets; the range of `int`; slices; totals over threads |
| Lists.dfy, Trees.dfy | list and tree shapes in the heap |
| DnsNames.dfy | the two spellings of a domain name and their round trips |
| DnsCodec.dfy | the in-place decoder, the encoder, the checked copy |
| DnsForward.dfy | a client's question from `on_recv` to the datagram sent upstream |
| DnsCompression.dfy | compressed names: the octet walk and section 4.1.4 of RFC 1035 |
| DnsAnswers.dfy | the answer section: the cursor, and what is collected |
| DnsLayout.dfy | messages put together field by field, and what the server reads in them |
| Barrier.dfy, Alternation.dfy, ProducerConsumer.dfy | the thread protocols, for any number of threads, rounds and limits |
| InternetChecksum.dfy, IcmpPackets.dfy | RFC 1071 and the packets that carry it |
| ListSort.dfy, DigitList.dfy | bubble sort and decimal addition on linked lists |
| LevelOrder.dfy, MaxPath.dfy | mirroring and level order with an array queue; the largest root-to-leaf sum |

`dafny verify dfyconfig.toml` checks everything.

## What the code does and does not guarantee

Some promises hold only under a condition. Each condition is proved to be exact, in both directions.

- An accepted query goes upstream with the question its client asked if and only if the name is *exact* (every length
  octet is read back as itself and fits, and no label holds a dot) and the class is IN: the server checks the type but
  not the class, and always writes class 1 (`DnsForward.ForwardsFaithfully`, `DnsLayout.QueryForwarded`). All names
  within the limits of section 2.3.4 of RFC 1035 whose labels hold no dot and no NUL are exact, and every copy of them
  fits the 256-octet buffers.
- `uncompress_name` looks at octets, not labels. For names whose pointers lead strictly backwards it ends with the
  RFC's expansion if and only if no label octet is 0 or at least 192 (`DnsCompression.UncompressMeetsRfc`);
  `DnsCompression.HighOctetMisread` is an answer whose owner is misread.
- On answer sections of addresses and plain names the cursor stays on the record boundaries if and only if RDLENGTH is
  the size of the name in every record that is not an address (`DnsAnswers.CursorOnBoundaries`), and the answers
  collected are exactly the RFC's if and only if it is so in every record but the last (`DnsAnswers.AnswersMeetRfc`).
  A response that is put together field by field is always read as its records (`DnsLayout.ResponseRead`).
- The barrier waits on its condition variable without a loop. With two producers or more, all runs with at most k
  spurious wakeups keep every producer within one arrival of the others if and only if k is 0
  (`Barrier.InStepWithoutSpurs`).
- The alternating threads print after a wait before they test the counter again. For every limit, all runs with at most
  k spurious wakeups print rising values of the right parity, with an increment between two waits, if and only if k is 0
  (`Alternation.InTurnWithoutSpurs`). That they finish, with the counter at M + 2, needs no such condition.
- The producers and consumers can be left stuck if and only if one side's total exceeds the other's by more than its
  initial semaphore credit, or there is work and no credit at all (`ProducerConsumer.StuckMeansFinished`). The coded
  totals are equal, and the credit is 6.
- The checksum is RFC 1071's if and only if what it misses is 0, or is 65535 beside a sum that is not 0; it misses one
  for each overflow of the 32-bit accumulator, and on big-endian reads 255 times an odd last octet, which the RFC pads
  to the high half of its word (`InternetChecksum.ChecksumMeetsRfc`). On whole words that means no overflow
  (`InternetChecksum.WholeWordsMeetRfc`), which is sure for buffers of up to 131074 octets and for no larger size
  (`InternetChecksum.AccumulatorBound`); up to that size it means little-endian reads, an even size or a last octet of 0
  (`InternetChecksum.OddTail`).
- Byte-order independence holds on all buffers of an even size if and only if the size is at most 131074
  (`InternetChecksum.ByteOrderIndependence`); so does the rule that only zeros have checksum 65535
  (`InternetChecksum.AllOnesChecksum`, of any size). That an installed checksum verifies holds at every size.
- `maxSumPath` sets its target leaf if and only if some sum exceeds INT_MIN (`MaxPath.MaxSumPath`).

The comment above `uncompress_name` says that a pointer to offset 16 adds binary 1000; 16 is binary 10000, and the code
computes the offset correctly. `send_data_to_dns` copies the size of a pointer instead of the header: eight octets on a
64-bit host, so the last two counts of the client's header are sent as zero. The model follows the code in both.

## Model

| member | source | states |
|---|---|---|
| DnsCodec.LengthsToDots | sample_dns_server/src/dns_utils/utils.c:57-68 | on every nonempty NUL-terminated buffer with room for its last length, the in-place loop leaves the labels joined by dots, one octet shorter, and touches nothing past its index; the same loop ends `uncompress_name` at lines 394-404 |
| DnsCodec.DecodingStep | sample_dns_server/src/dns_utils/utils.c:58-67 | the decoder's loop invariant survives each label, right or too long, although the bound `strlen` is taken again on the changed buffer |
| DnsCodec.ChangeToDnsNameFormat | sample_dns_server/src/dns_utils/utils.c:117-141 | the host text gains one dot, and the destination gets exactly its length-prefixed labels and a zero, text length plus 2 octets, for every text including empty labels |
| DnsCodec.VerifyAndCopyQname | sample_dns_server/src/dns_utils/utils.c:88-109 | the copy succeeds exactly for names of at most `buflen` + 1 octets; both outcomes give the whole buffer |
| DnsNames.SpellingsInverse | sample_dns_server/src/dns_utils/utils.c:111-141 | on names within the RFC 1035 limits decoder and encoder undo each other, and the wire name is 2 octets longer than the text |
| DnsNames.WireRoundTrip | sample_dns_server/src/dns_utils/utils.c:57-68 | for every C string, decoding then encoding gives it back if and only if it is exact |
| DnsNames.TextToWireTrailingDot | sample_dns_server/src/dns_utils/utils.c:125 | encoding a text that already ended in a dot adds one zero octet and nothing else |
| DnsForward.VerifyDnsBuffer | sample_dns_server/src/dns_utils/utils.c:408-449 | a query passes exactly if its name is at most `buflen` + 1 octets and the type behind the name is A |
| DnsForward.ReadAndPrintDnsHeader | sample_dns_server/src/dns_utils/utils.c:16-82 | the client record holds the transaction id and the name's text; the message is unchanged |
| DnsForward.SendDataToDns | sample_dns_server/src/dns_utils/utils.c:178-253 | the buffer becomes the eight copied header octets, zeros, the encoded text, and the type and class directly behind its terminator; refused exactly when the copy is |
| DnsForward.OnRecv | sample_dns_server/src/dns_server/server.c:124-157 | from the client's buffer to the datagram: sent exactly for accepted queries, and then the query for the name's text |
| DnsForward.ForwardsFaithfully | sample_dns_server/src/dns_utils/utils.c:239-253 | for an accepted query the datagram is eight octets of the client's header, four zeros and a question, which is the client's own, type, class and length included, if and only if the name is exact and the class is IN |
| DnsForward.ValidNameServed | sample_dns_server/src/dns_utils/utils.c:178-253 | every name within the RFC 1035 limits meets the room requirements of the whole path and is exact |
| DnsForward.ValidNameForwarded | sample_dns_server/src/dns_utils/utils.c:234-253 | so for every such name a type A question is sent on octet for octet if and only if its class is IN |
| DnsLayout.MessageReads | sample_dns_server/src/dns_utils/utils.c:30-34 | in every message laid out as header, name, type and class, the identification, the answer count, the name, its type and class, and the place of the answers are read back |
| DnsLayout.QueryForwarded | sample_dns_server/src/dns_utils/utils.c:234-253 | a client's address query for an exact name becomes, as a whole, the message with its identification, flags and first two counts, its name, and class IN |
| DnsCompression.UncompressName | sample_dns_server/src/dns_utils/utils.c:355-406 | whenever the walk ends, the text is the decoded gathered octets and the count is the octets the name occupies, pointer or not |
| DnsCompression.BackwardEnds | sample_dns_server/src/dns_utils/utils.c:366-386 | if every pointer leads before the start of its run of octets, the walk ends |
| DnsCompression.WalkExpands | sample_dns_server/src/dns_utils/utils.c:366-392 | with plain labels the walk ends, gathers exactly the labels of the section 4.1.4 expansion, and counts the name's size |
| DnsCompression.UncompressMeetsRfc | sample_dns_server/src/dns_utils/utils.c:355-406 | the walk ends with the expansion's dotted form if and only if no label octet is 0 or at least 192, and then the count is the name's size |
| DnsCompression.ValidNameUncompresses | sample_dns_server/src/dns_utils/utils.c:355-406 | every valid plain name can be expanded within the 256-octet buffer |
| DnsCompression.PointerTarget | sample_dns_server/src/dns_utils/utils.c:371-376 | a pointer written as two one bits and a 14-bit offset leads to that offset |
| DnsCompression.SpelledMeans | sample_dns_server/src/dns_utils/utils.c:366-392 | a name written as labels and then a zero or a pointer stands for its labels followed by those of the name at the pointer's offset, and takes up what was written |
| DnsCompression.SpelledRead | sample_dns_server/src/dns_utils/utils.c:355-406 | and if its labels are plain, every walk that ends reads it as their dotted form and counts what was written |
| DnsCompression.HighOctetMisread | sample_dns_server/src/dns_utils/utils.c:371-376 | a response whose answer's owner holds an octet of 192 is misread: the text differs from the expansion's |
| DnsAnswers.ReadAnswer | sample_dns_server/src/dns_utils/utils.c:297-319 | one record's name, fixed part and data, and where the cursor goes |
| DnsAnswers.ReadAnswers | sample_dns_server/src/dns_utils/utils.c:284-320 | the collected answers and the final cursor, starting behind the question |
| DnsAnswers.CursorOnBoundaries | sample_dns_server/src/dns_utils/utils.c:294-320 | on every section of addresses and plain names the cursor is on the boundary behind each record, the last included, if and only if every RDLENGTH is the size of its name |
| DnsAnswers.AnswersMeetRfc | sample_dns_server/src/dns_utils/utils.c:294-320 | on every such section the answers collected are the owners' and data names' expansions, the addresses and the places of the fixed parts at the RFC's boundaries, if and only if RDLENGTH agrees in every record but the last |
| DnsLayout.RecordStands | sample_dns_server/src/dns_utils/utils.c:297-319 | a record laid out as owner, 16-bit type and class, 32-bit time to live, 16-bit length and that many octets of data is read with exactly those data, and ends behind them |
| DnsLayout.ResponseRead | sample_dns_server/src/dns_utils/utils.c:284-320 | from every response put together of header, question and such records the server takes exactly the records that were put in, and its cursor ends behind the last |
| Barrier.ProducerStepInv | mutex_sempaphores/sem_problem.c:42-60 | every producer step keeps mutex ownership, the count of arrivals and the signal in the semaphore |
| Barrier.ConsumerStepInv | mutex_sempaphores/sem_problem.c:62-77 | so does every consumer step, the reset and the broadcast included |
| Barrier.ProgramOrder | mutex_sempaphores/sem_problem.c:42-77 | in every run, spurious wakeups included, each thread performs its loop's operations in order, over and over; count, semaphore, arrivals and resets are what the events make of them |
| Barrier.ResetFindsEveryoneWaiting | mutex_sempaphores/sem_problem.c:69-73 | in every run without spurious wakeups the reset finds all producers waiting, each having arrived once more than there were resets |
| Barrier.BarrierSafety | mutex_sempaphores/sem_problem.c:42-77 | in every such run arrivals differ by at most one, the semaphore is at most 1, and one thread holds the mutex |
| Barrier.NoDeadlock | mutex_sempaphores/sem_problem.c:42-77 | every state of such a run has a step that needs no spurious wakeup |
| Barrier.MeasureDecreases | mutex_sempaphores/sem_problem.c:42-77 | between two resets every step brings the next reset closer |
| Barrier.RoundsKeepComing | mutex_sempaphores/sem_problem.c:42-77 | such a run of any length has completed rounds at a rate of at least one in 6n + 5 steps, however it was scheduled |
| Barrier.SpuriousWakeupBreaksRound | mutex_sempaphores/sem_problem.c:57 | for every n of at least 2 a run with one spurious wakeup comes to the reset with one producer arrived twice and another never |
| Barrier.InStepWithoutSpurs | mutex_sempaphores/sem_problem.c:42-77 | for every n of at least 2, all runs with at most k spurious wakeups keep arrivals within one of each other if and only if k is 0 |
| Alternation.StepInv | pthread/alternate_print.c:8-40 | every step, spurious wakeups included, keeps the invariant that whoever could go on sleeps only while the other is about to signal |
| Alternation.ProgramOrder | pthread/alternate_print.c:8-40 | in every run each thread keeps to its program, taking the branches that the number of increments so far calls for; the counter is that number and the printed lines are those of the printing events |
| Alternation.NoLostWakeup | pthread/alternate_print.c:11-16 | in every run, spurious wakeups included, the two threads are never both asleep unsignalled, nor both in the critical section |
| Alternation.ParityOfIncrements | pthread/alternate_print.c:11-15 | only the odd thread moves the counter off even values, and only the even thread off odd values |
| Alternation.NoDeadlock | pthread/alternate_print.c:8-40 | every unfinished state has a step that needs no spurious wakeup, and the finished state has the counter at M + 2 |
| Alternation.EveryRunFinishes | pthread/alternate_print.c:17-20 | every run with k spurious wakeups has at most 11M + 36 + 5k steps, and can go on only by a spurious wakeup if and only if both threads are gone, the counter then being M + 2 |
| Alternation.PrintsRise | pthread/alternate_print.c:11-14 | without spurious wakeups there is an increment of a thread between any two of its waits, and printed values rise strictly with a fixed parity per thread |
| Alternation.WaitsApart | pthread/alternate_print.c:11-14 | between two waits of a thread in the list of events stands an increment of that thread |
| Alternation.InTurnWithoutSpurs | pthread/alternate_print.c:11-14 | for every limit this holds in all runs with at most k spurious wakeups if and only if k is 0 |
| ProducerConsumer.ProgramOrder | mutex_sempaphores/prod_consumer.c:25-55 | in every run each thread waits, locks, accesses, unlocks and posts in this order, over and over, for no more rounds than it has; each semaphore is its initial value plus the posts of one side minus the waits of the other |
| ProducerConsumer.Conservation | mutex_sempaphores/prod_consumer.c:25-55 | in every run the semaphores and the threads between wait and post add up to the initial values, neither side outruns the other's credit, and the buffer section is exclusive |
| ProducerConsumer.StuckMeansFinished | mutex_sempaphores/prod_consumer.c:25-55 | for any initial semaphore values runs are bounded, and a stuck run has finished if and only if neither total exceeds the other by more than its credit and there was some credit or nothing to do |
| ProducerConsumer.EqualTotalsFinish | mutex_sempaphores/prod_consumer.c:62-79 | with the coded semaphore values and equal totals no schedule deadlocks, and the sum is BUF_LEN + 1 |
| InternetChecksum.ChecksumTwoFolds | ICMP_ping/myping.c:74-87 | two folds give the checksum, wrap-around of the accumulator included |
| InternetChecksum.ChecksumLoop | ICMP_ping/other_mypings/ping6_ll.c:386-415 | folding until done gives the same checksum for every buffer |
| InternetChecksum.FieldsSum | ICMP_ping/myping.c:79-80 | on big-endian reads the sum of 16-bit fields is the sum of their values |
| InternetChecksum.StoreOrder | ICMP_ping/myping.c:79-80 | a big-endian host keeps a field in network order, a little-endian one the other way round |
| InternetChecksum.TwoFoldsSuffice | ICMP_ping/myping.c:83-84 | no 32-bit sum needs a third fold |
| InternetChecksum.FoldValue | ICMP_ping/other_mypings/ping6_ll.c:404-409 | the folded sum is the sum modulo 65535 in the range 1 to 65535, and 0 only for 0 |
| InternetChecksum.DeferredCarries | ICMP_ping/other_mypings/ping6_ll.c:393-409 | adding first and carrying last equals one's complement addition at every word |
| InternetChecksum.AccumulatorBound | ICMP_ping/myping.c:76-82 | no buffer of a size overflows the accumulator if and only if the size is at most 131074 |
| InternetChecksum.ChecksumMeetsRfc | ICMP_ping/myping.c:71-87 | for every buffer whose length is an int the result is the RFC 1071 checksum of the padded buffer if and only if overflows and the shift of an odd last octet add up to 0, or to 65535 beside a sum that is not 0 |
| InternetChecksum.WholeWordsMeetRfc | ICMP_ping/myping.c:71-87 | on even sizes or little-endian reads it is the RFC 1071 checksum if and only if the accumulator does not overflow |
| InternetChecksum.AllOnesChecksum | ICMP_ping/myping.c:83-86 | on all buffers of a size the checksum is 65535 exactly for zeros if and only if the size is safe |
| InternetChecksum.ByteOrderIndependence | ICMP_ping/myping.c:79-80 | on all buffers of an even size the other byte order gives exactly the byte-swapped checksum if and only if the size is at most 131074 |
| InternetChecksum.WordOrderIndependence | ICMP_ping/myping.c:79-80 | even buffers with the same words in any order have the same checksum |
| InternetChecksum.OddTail | ICMP_ping/myping.c:81-82 | within the safe size the checksum is RFC 1071's if and only if reads are little-endian, the size is even or the last octet is 0 |
| InternetChecksum.InstalledChecksum | ICMP_ping/myping.c:235 | writing the checksum into its zero field makes the packet's checksum 0, at any size |
| IcmpPackets.FillEchoRequest | ICMP_ping/myping.c:226-235 | the packet has type 8, code 0, the checksum, id and sequence number in host order, characters counting up from '0' and a last 0; and its checksum is 0 |
| IcmpPackets.PseudoHeaderFields | ICMP_ping/other_mypings/ping6_ll.c:427-456 | the pseudo-header is 40 octets: source, destination, a 32-bit length, three zeros, the next header |
| IcmpPackets.CoveredFields | ICMP_ping/other_mypings/ping6_ll.c:458-494 | type, code, checksum, id, sequence number, payload and padding lie behind it at their octets |
| IcmpPackets.Icmp6Checksum | ICMP_ping/other_mypings/ping6_ll.c:418-498 | the result is the checksum of pseudo-header, header with a zero field in its proper place, payload and padding, over 48 + payload + padding octets |
| IcmpPackets.FieldOrder | ICMP_ping/other_mypings/ping6_ll.c:459-483 | assembling the checksum field after id and sequence number does not change the result |
| IcmpPackets.ReceiverVerifies | ICMP_ping/other_mypings/ping6_ll.c:417-498 | with the result in the header's field, everything covered has checksum 0 |
| ListSort.SwapData | Interview_Questions/PS/PS_3.c:43-48 | the data of two neighbours change places, the links stay |
| ListSort.Pass | Interview_Questions/PS/PS_3.c:64-73 | a pass permutes the data, settles one more node at the right, keeps all links, and swaps nothing exactly on sorted data |
| ListSort.Sort | Interview_Questions/PS/PS_3.c:58-75 | the data of the nodes become a sorted permutation, ascending, every link is unchanged, and the loop ends |
| DigitList.AddNode | leetcode/addList.c:12-26 | a fresh node is linked at the tail and the list before it is unchanged |
| DigitList.AddTwoNumbers | leetcode/addList.c:44-65 | a fresh list of digits with the value of the sum; the inputs may share nodes and are unchanged |
| DigitList.SumValue | leetcode/addList.c:47-63 | the schoolbook sum has digits only, and the right value |
| DigitList.SumCanonical | leetcode/addList.c:61-63 | it has no leading zero if the inputs have none, and is empty only for empty inputs |
| DigitList.CanonicalUnique | leetcode/addList.c:44-65 | digits without leading zeros are determined by their value |
| DigitList.SumLength | leetcode/addList.c:47-63 | the sum is as long as the longer number, and one digit longer exactly if its value needs it |
| DigitList.DigitsUnique | leetcode/addList.c:44-65 | digits of one length are determined by their value, so length and value leave one sum, leading zeros included |
| DigitList.SumDecimal | leetcode/addList.c:44-65 | what is written in decimal for two numbers adds up to what is written for their sum |
| LevelOrder.Mirror | Interview_Questions/MS/bst_mirror.c:52-63 | every node's left and right links are exchanged and its data kept, an only child's included; so the heap holds the mirrored tree |
| LevelOrder.MirroredInOrder | Interview_Questions/MS/bst_mirror.c:52-63 | the mirrored tree has the same nodes at the same depths, in the opposite order from left to right |
| LevelOrder.MirrorAndBack | Interview_Questions/MS/bst_mirror.c:52-63 | mirroring twice restores every link |
| LevelOrder.Queue.Enqueue | Interview_Questions/MS/bst_mirror.c:17-21 | the node is stored at `rear`, everything else stays |
| LevelOrder.Queue.Dequeue | Interview_Questions/MS/bst_mirror.c:23-27 | the node at `front`, or the null behind the last entry |
| LevelOrder.Queue.Reset | Interview_Questions/MS/bst_mirror.c:75-77 | the queue is as good as new |
| LevelOrder.LevelOrderTraversal | Interview_Questions/MS/bst_mirror.c:37-50 | with a slot per node the tree is printed depth by depth, left to right, the traversal stops, and `front` ends one past `rear` |
| LevelOrder.QueueOrderIsLevelOrder | Interview_Questions/MS/bst_mirror.c:41-48 | the order in which a queue prints a tree is the order by depth |
| LevelOrder.LevelOrderSorts | Interview_Questions/MS/bst_mirror.c:37-50 | which is the order from left to right, sorted by depth without changing the order within a depth |
| Trees.RepLinks | Interview_Questions/MS/bst_mirror.c:30-35 | the tree values say what the links say: each node's children are the roots of its left and right subtrees |
| LevelOrder.BfsPrintsAll | Interview_Questions/MS/bst_mirror.c:41-48 | every node's data is printed exactly once |
| LevelOrder.MirroredLevels | Interview_Questions/MS/bst_mirror.c:52-63 | mirroring reverses every level and changes nothing else in the order |
| LevelOrder.PrintMirrorPrint | Interview_Questions/MS/bst_mirror.c:73-78 | the driver prints the level order and then the same levels reversed |
| MaxPath.GetTargetLeaf | Interview_Questions/PS/PS_4.c:42-69 | the two variables are updated as by a left-to-right scan of the leaves' path sums |
| MaxPath.LeafListed | Interview_Questions/PS/PS_4.c:54-68 | every node without children is among the leaves scanned |
| MaxPath.LeafInTree | Interview_Questions/PS/PS_4.c:54 | and nothing else is |
| MaxPath.LeavesInOrder | Interview_Questions/PS/PS_4.c:63-68 | they are scanned from left to right |
| MaxPath.ScanFinds | Interview_Questions/PS/PS_4.c:54-61 | the scan finds the leftmost largest sum if any beats the starting value, and changes nothing otherwise |
| MaxPath.PrintPath | Interview_Questions/PS/PS_4.c:18-37 | true exactly if the target is in the tree, and then the data printed lead from it up to the root |
| MaxPath.PathClimbs | Interview_Questions/PS/PS_4.c:18-37 | the data printed stand on a chain of child links from the target up to the root |
| MaxPath.PathUnique | Interview_Questions/PS/PS_4.c:18-37 | there is only one such path |
| MaxPath.PathSum | Interview_Questions/PS/PS_4.c:50 | the data on a leaf's path add up to the sum found for it |
| MaxPath.MaxSumPath | Interview_Questions/PS/PS_4.c:73-89 | the result is the largest sum over all root-to-leaf paths of the tree; the target is the leaf attaining it that lies to the left of every other; its path is printed and adds up to the result |

## Left out

- Sockets, libevent, timeouts, fork and raw-packet I/O: system calls. Printing is kept only where a result speaks of it, as a returned sequence.
- DnsForward.OnRecv: takes the room that the 256-octet name buffers need as a precondition, and leaves out the NUL stored behind the received octets and the second half of the callback, which reads the response header with the same function.
- DnsForward.ReadAndPrintDnsHeader: does not model the query/response flag, which is only printed.
- DnsLayout.ResponseRead: speaks of addresses and single names that are valid and have plain labels, as the cursor results do.
- DnsAnswers.ReadAnswers: requires names that are not empty and walks that end and fit the buffers, at most 20 answers, the size of the arrays that hold them, and leaves out the terminator stored behind an address, the authority and additional sections, and records whose data are neither an address nor a single name.
- DnsCompression.UncompressName: requires a nonempty name, since the code has no place to cut the last dot of an empty one.
- Barrier.ResetFindsEveryoneWaiting: assumes no spurious wakeups, without which it is false, as `Barrier.SpuriousWakeupBreaksRound` shows.
- ProducerConsumer.Conservation: does not model the buffer's contents; both sides write the same constants, so nothing is transferred.
- MaxPath.MaxSumPath: requires path sums within the range of int, where the code's additions are defined.
- The `Strlen` and string-copy library calls are modelled by what the C standard says they return.
- Memory allocation and release, and the sizes of the thread arrays in the drivers.
- The ring queue in PS_4.c, the drivers, and the remaining programs of the repository: they would only add easy or unfinished members.
