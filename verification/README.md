# Scamper: models and proofs

This project models the parts of scamper that carry its logic, in Dafny, and
proves what they are for. A reader needs no other files.

| component | source | modules |
|---|---|---|
| BPF filter compiler | scamper_dl.c, scamper_fds.c | BpfMachine, BpfFilter, BpfFilterProofs, BpfFilterResults, SocketPorts, BpfWire |
| Patricia trie | mjl_patricia.c | PatriciaTree, PatriciaHeap, Patricia, PatriciaFree |
| Splay tree | mjl_splaytree.c | SplayTree, SplayCost, SplayStack, SplayHeap, Splay |
| Remote control session | scamper_control.c, sc_remoted.c | NetBytes, RemoteFrames, RemoteSession, RemotePeer, RemoteProtocol, RemoteRuns, RemoteChannels, RemoteWire |
| IPv4 prefix tree | mjl_prefixtree.c | Ip4Bits, PrefixTrie, PrefixHeap, PrefixTree |
| Thread pool | mjl_threadpool.c | TaskQueue, ThreadPool, PoolOrder |
| uuencode and result output | utils.c, scamper_control.c, libscamperctrl.c | UuCode, Uuencode, Uudecode, UuOctets, ClientWrite, ClientRead |
| Warts dictionaries and parameters | scamper_file_warts.c | WartsDict, WartsAddrs, WartsIfnames, WartsOctets, WartsParams, WartsParamIo |
| Probe pacing | scamper.c, utils.c | ProbePacing |
| Heap with handles | mjl_heap.c | HeapOrder, Heap |
| Shared datatypes and functions | none | Wrappers |

How the models are built:

- The linked structures are classes with the source's fields, relinked in place.
  Each method is proved against a tree given as a value: a ghost snapshot of the
  fields of the nodes (a map) represents the tree, lemmas on maps say what each
  relinking does to it, and the results are proved about the trees.
- The filter compiler is proved to write a program given as a sequence of
  instructions; an interpreter of classic BPF runs it; and what the run returns is
  compared with a plain predicate on the frame. IPv4 fields follow section 3.1 of
  RFC 791, IPv6 fields section 3 of RFC 8200.
- The remote control session and the thread pool are state machines over all runs.
  The class Remote is proved to take the steps of scamper's end. The other end is
  modelled from the controller's own source, utils/sc_remoted/sc_remoted.c.
- The file dictionaries, the parameter blocks and uuencode are loops over buffers
  and cursors, proved against functions on byte sequences; the round trips are
  proved about the functions.
- What goes over a wire or into a file is also said in numbers, octet by octet, and
  what a run does is also said on the steps of the run; these results do not rest on
  both ends sharing a definition (BpfWire, RemoteWire, RemoteChannels, PoolOrder,
  UuOctets, ClientRead, WartsOctets, WartsParams.BlockOctets).

What the code does not do, and what was proved instead:

- A filter for more than 20 ports tests a range, and when the destination port is
  below the range the last jump lands in whatever block follows. The filter is then
  not exact in general. It is exact if and only if the port lists are LeakFree
  (BpfFilterResults.ExactIffLeakFree), and a listed port is never dropped.
- An address or interface name dictionary is read back only if the writing pass
  keeps the order of the sizing pass. The exact conditions are
  WartsAddrs.RoundTrip with SameNumbersIs, and WartsIfnames.RoundTrip with
  InOrderIs; the lemmas named OtherOrderFails give orders that are not read back.
- A frame without payload is dispatched by remote_read_payload only when a later
  byte arrives; RemoteFrames.Parse says so, and holds for all streams.
- warts_params_read ends a block where its length says, not where the last handler
  stopped, so a reader that knows fewer parameters still ends at the right place.

Assumptions that the statements carry: fewer than 2^31 messages are unacknowledged
at either end of a remote session, and an abandoned connection is not answered after
2^32 further messages; a socket's family counts fit 16 bits; a probe is sent at a
constant rate while a bound is taken; the wait between probes is never longer than
the window, which Pacer.WaitFitsWindow shows of every setting.

## Model

| member | source | states |
|---|---|---|
| BpfFilter.BpfPortInsnsCalc | scamper-cvs-20250505/scamper/scamper_dl.c:680-702 | the number of instructions that a list will take, and its smallest and largest port |
| BpfFilter.BpfPortInsnsEnc | scamper-cvs-20250505/scamper/scamper_dl.c:704-743 | fills exactly the instructions counted for the list, touching nothing before them |
| BpfFilter.SizeProgram | scamper-cvs-20250505/scamper/scamper_dl.c:767-815 | the sizing pass counts, per family, exactly the instructions that the emitting pass will write |
| BpfFilter.DlFilterCompile | scamper-cvs-20250505/scamper/scamper_dl.c:746-994 | an unsupported link type is refused; otherwise the array is filled to the end with the program that the results below are about, so the two passes agree; what it keeps of a frame is said by BpfFilterResults.AcceptedWhole and in octets by BpfWire |
| BpfFilterProofs.PortsRun | scamper-cvs-20250505/scamper/scamper_dl.c:704-743 | running the tests of one list accepts or rejects at once, or runs on into the next instruction, as the ports of the frame decide |
| BpfFilterProofs.V4Run | scamper-cvs-20250505/scamper/scamper_dl.c:911-958 | running the IPv4 block decides fragments, ICMP, UDP and TCP, run-ons into the next blocks included |
| BpfFilterProofs.V6Run | scamper-cvs-20250505/scamper/scamper_dl.c:960-983 | running the IPv6 block decides extension headers, ICMPv6, UDP and TCP, run-ons included |
| BpfFilterProofs.HtonlMeetsHostWord | scamper-cvs-20250505/scamper/scamper_dl.c:829-846 | the address family compared in network order is the one that a null link frame carries in host order |
| BpfFilterProofs.ProgramDecides | scamper-cvs-20250505/scamper/scamper_dl.c:746-994 | for every link type, every port list of any length and every frame, the interpreter run on the whole program returns what a predicate on the bytes says; it never leaves the program |
| BpfFilterResults.AcceptedWhole | scamper-cvs-20250505/scamper/scamper_dl.c:980-983 | an accepted frame of up to 65535 bytes is kept to its last byte, and the program returns 65535 or 0 and nothing else |
| BpfFilterResults.ExactIffLeakFree | scamper-cvs-20250505/scamper/scamper_dl.c:704-743 | the filter accepts exactly the wanted frames if and only if no list longer than 20 can run on into a block that accepts something else; a caller can check this on the port lists |
| BpfFilterResults.LeakWitness | scamper-cvs-20250505/scamper/scamper_dl.c:735-742 | for port lists that fail the condition, a frame that passes although no list covers its ports |
| BpfFilterResults.ShortListsExact | scamper-cvs-20250505/scamper/scamper_dl.c:746-994 | with at most 20 ports in each list that another block follows, the filter is exact on every frame |
| BpfFilterResults.ListedAccepted | scamper-cvs-20250505/scamper/scamper_dl.c:704-994 | however long the lists, a UDP or TCP frame to or from a listed port passes, and is kept whole up to 65535 bytes |
| BpfFilterResults.JumpsInside | scamper-cvs-20250505/scamper/scamper_dl.c:642-678 | every jump goes forward to an instruction of the program, whose size keeps every distance within 8 bits |
| SocketPorts.FdsSports | scamper-cvs-20250505/scamper/scamper_fds.c:2042-2098 | the two passes fill the array with four counts and then the ports of the sockets, grouped by kind |
| SocketPorts.ListsOfLayout | scamper-cvs-20250505/scamper/scamper_fds.c:2042-2098 | the compiler reads that array back as the ports bound by the sockets of each family and protocol, if the counts fit 16 bits |
| SocketPorts.BoundPortsAccepted | scamper-cvs-20250505/scamper/scamper_fds.c:2042-2098 | for any set of open sockets, the filter compiled from it accepts every packet to or from one of them, and keeps it whole up to 65535 bytes |
| BpfWire.KeptWhole | scamper-cvs-20250505/scamper/scamper_dl.c:746-994 | in octets alone: however long the lists, ARP, later IPv4 fragments, ICMP, IPv6 extension headers, and UDP or TCP with a listed port are kept whole |
| BpfWire.NothingElse | scamper-cvs-20250505/scamper/scamper_dl.c:680-743 | with at most 20 ports in each list the program returns 65535 for those frames and 0 for all others |
| BpfWire.SocketsSee | scamper-cvs-20250505/scamper/scamper_fds.c:2042-2098 | from the open sockets to the frames: the filter compiled from them keeps what is for one of them whole, and with at most 20 sockets of each kind lets no other UDP or TCP packet pass |
| PatriciaTree.SearchFinds | scamper-cvs-20250505/mjl_patricia.c:103-120 | a search in a well formed trie ends at the item with the address if there is one |
| PatriciaTree.InsertWf | scamper-cvs-20250505/mjl_patricia.c:123-207 | insertion at the first differing bit keeps bits increasing and each subtree agreeing on the bits above it |
| PatriciaTree.InsertEntries | scamper-cvs-20250505/mjl_patricia.c:123-207 | it adds one entry and keeps all others |
| PatriciaTree.RemoveWf | scamper-cvs-20250505/mjl_patricia.c:253-340 | removal, with the rename of a node that takes another's place, keeps the trie well formed |
| PatriciaTree.CutEntries | scamper-cvs-20250505/mjl_patricia.c:253-340 | it takes out exactly one entry |
| PatriciaHeap.GrownOk | scamper-cvs-20250505/mjl_patricia.c:153-205 | linking the new node into memory, with its own up-link, represents the trie with the entry added |
| PatriciaHeap.RemoveOk | scamper-cvs-20250505/mjl_patricia.c:253-340 | unlinking in memory, in all cases - the node with its own up-link, the node without a bit, and one node taking the place of another - represents the trie with the entry taken out |
| PatriciaHeap.SelfLinkOwner | scamper-cvs-20250505/mjl_patricia.c:271-300 | when the last branch before the item is its own, the link that leads the search to it is that of the grandparent |
| PatriciaHeap.TipLinkOwner | scamper-cvs-20250505/mjl_patricia.c:253-300 | a node that branches nowhere is reached by the link of the last branch |
| PatriciaHeap.OwnerAfterCut | scamper-cvs-20250505/mjl_patricia.c:271-300 | in all other cases the node that the search comes through still owns the link to the branch after the item has been cut off |
| Patricia.Patricia.constructor | scamper-cvs-20250505/mjl_patricia.c:368-416 | an empty trie, its sentinel linked to itself |
| Patricia.Patricia.Find | scamper-cvs-20250505/mjl_patricia.c:103-120 | find returns the item filed under the address, and nothing for any other address |
| Patricia.Patricia.Insert | scamper-cvs-20250505/mjl_patricia.c:123-207 | insert fails just on an address that is present and then changes nothing; otherwise exactly that entry is added, with a new node |
| Patricia.Patricia.Locate | scamper-cvs-20250505/mjl_patricia.c:209-251 | the two nodes above the end of a search |
| Patricia.Patricia.FindOwner | scamper-cvs-20250505/mjl_patricia.c:271-300 | the node whose link leads up to a node |
| Patricia.Patricia.GpxRemove | scamper-cvs-20250505/mjl_patricia.c:253-340 | removing a located node takes out its entry, and no node is lost: the trie, its count and its sentinel stay in order |
| Patricia.Patricia.RemoveItem | scamper-cvs-20250505/mjl_patricia.c:351-358 | removal fails just on an absent address; otherwise exactly that entry goes |
| Patricia.Patricia.RemoveNode | scamper-cvs-20250505/mjl_patricia.c:342-349 | the same through the node; a node that is not in the trie is refused |
| PatriciaFree.VisitsDistinct | scamper-cvs-20250505/mjl_patricia.c:423-446 | no node is visited twice, although up-links lead back to nodes already seen |
| PatriciaFree.VisitsMembers | scamper-cvs-20250505/mjl_patricia.c:423-446 | the nodes visited are all nodes of the trie but the sentinel |
| PatriciaFree.FreeRec | scamper-cvs-20250505/mjl_patricia.c:423-446 | the recursion frees the nodes below a link once each, is never called on a node that was freed, and ends |
| PatriciaFree.FreeCb | scamper-cvs-20250505/mjl_patricia.c:448-461 | freeing a trie hands every node but the head, with its item, to the callback exactly once |
| SplayStack.Stack.Push | scamper-cvs-20250505/mjl_splaytree.c:1050-1068 | pushes one entry, over any number of 512-entry blocks |
| SplayStack.Stack.Pop | scamper-cvs-20250505/mjl_splaytree.c:1070-1088 | pops the last entry, or reports an empty stack |
| SplayTree.SplayItems | scamper-cvs-20250505/mjl_splaytree.c:239-310 | splaying a node to the top keeps the items and their order |
| SplayTree.SplayNodes | scamper-cvs-20250505/mjl_splaytree.c:239-310 | and keeps the set of nodes |
| SplayTree.FindCorrect | scamper-cvs-20250505/mjl_splaytree.c:498-527 | in a search tree the search ends at the item with the key, if any |
| SplayTree.InsertItems | scamper-cvs-20250505/mjl_splaytree.c:352-430 | a new item below the path of its search comes at its position, and the order is kept |
| SplayTree.RootPosition | scamper-cvs-20250505/mjl_splaytree.c:591-644 | the items left and right of the root are those before and after its position |
| SplayTree.RightmostSplay | scamper-cvs-20250505/mjl_splaytree.c:603-629 | splayed along right links, the right-most node has nothing on its right, so the right part can be hung there |
| SplayCost.Splay2Cost | scamper-cvs-20250505/mjl_splaytree.c:170-225 | one call of splaytree_splay2 costs at most three times the rank that the node gains, plus the potential lost |
| SplayCost.AccessLemma | scamper-cvs-20250505/mjl_splaytree.c:239-310 | a splay costs at most 3 * (rank of the root - rank of the node) + 1 calls plus the drop in potential |
| SplayCost.FindsAreLogarithmic | scamper-cvs-20250505/mjl_splaytree.c:534-553 | m finds on any tree of n nodes make at most m * (3 log n + 1) + n log n calls |
| SplayCost.RunsAreLogarithmic | scamper-cvs-20250505/mjl_splaytree.c:440-704 | m finds, insertions and removals in any order on a tree of n nodes make at most m * (6 log (n + m) + 2) + n log (n + m) calls |
| SplayHeap.Splay2Focus | scamper-cvs-20250505/mjl_splaytree.c:170-225 | the rotations of one call take the nodes in memory from the tree and its path to the splayed subtree and the rest of the path |
| SplayHeap.Relink | scamper-cvs-20250505/mjl_splaytree.c:284-297 | turning the stale link to the old subtree root puts the splayed child in its place |
| Splay.Rotate | scamper-cvs-20250505/mjl_splaytree.c:132-162 | a rotation turns just the two links |
| Splay.SplayTwo | scamper-cvs-20250505/mjl_splaytree.c:170-225 | the zig, zig-zig and zig-zag cases give the splayed subtree in memory, whatever is left and right |
| Splay.Splaytree.SplayUp | scamper-cvs-20250505/mjl_splaytree.c:239-310 | splaying along the stack makes the node the head over the splayed tree, empties the stack, touches only the nodes of that subtree and makes (depth + 1) / 2 calls |
| Splay.Splaytree.Find2 | scamper-cvs-20250505/mjl_splaytree.c:498-527 | leaves on the stack the path to where the key is or would be |
| Splay.Splaytree.Insert2 | scamper-cvs-20250505/mjl_splaytree.c:352-430 | refuses a key that is present, or links the new node at the end of its path |
| Splay.Splaytree.Find | scamper-cvs-20250505/mjl_splaytree.c:534-553 | finds the key just if it is there; then its node is the head, the items are kept, and the cost is that of the cost model; a find that fails changes nothing |
| Splay.Splaytree.Insert | scamper-cvs-20250505/mjl_splaytree.c:440-490 | fails just on a key that is present; otherwise the item comes at its position, its node is the head, size counts it, and the tree and the cost are those of the cost model |
| Splay.Splaytree.Remove | scamper-cvs-20250505/mjl_splaytree.c:591-644 | removes the item of the head and keeps all others in order, with the tree and the cost of the cost model |
| Splay.Splaytree.RemoveItem | scamper-cvs-20250505/mjl_splaytree.c:651-673 | fails just on an absent key; otherwise removes the item at its position, with the tree and the cost of the cost model |
| Splay.Splaytree.RemoveNode | scamper-cvs-20250505/mjl_splaytree.c:681-704 | succeeds just on a node of the tree, and removes that node, with the tree and the cost of the cost model |
| Splay.Splaytree.Inorder | scamper-cvs-20250505/mjl_splaytree.c:976-1002 | the walk with the explicit stack visits every item once, in order |
| RemoteFrames.ParseCut | scamper-cvs-20250505/scamper/scamper_control.c:2619-2684 | a stream parsed in two pieces gives the frames of the whole |
| RemoteFrames.ChunksDoNotMatter | scamper-cvs-20250505/scamper/scamper_control.c:2619-2684 | for every stream and every way of cutting it into reads, exactly the complete frames come out, in order |
| RemoteFrames.ParseEncoded | scamper-cvs-20250505/scamper/scamper_control.c:2105-2133 | reading what was written gives back the frames that were written |
| RemoteSession.Remote.ReadPayload | scamper-cvs-20250505/scamper/scamper_control.c:2619-2684 | a read deals with exactly the complete frames of the bytes so far, up to the first that fails, and keeps the rest; the buffer never overflows |
| RemoteSession.Remote.ReadAll | scamper-cvs-20250505/scamper/scamper_control.c:2773-2832 | any number of reads deal with exactly the frames of all their bytes, up to the first that fails, wherever the bytes are cut |
| RemoteSession.Remote.Send | scamper-cvs-20250505/scamper/scamper_control.c:2141-2202 | a message to be acknowledged is queued under the next number, and written only once the session is going |
| RemoteSession.Remote.Dispatch | scamper-cvs-20250505/scamper/scamper_control.c:2659-2681 | what a frame does to the session, its errors included, and whether its channel is open |
| RemoteSession.Remote.Control | scamper-cvs-20250505/scamper/scamper_control.c:2542-2611 | what a control message does to the session: names, channels that open and close, keepalives, acknowledgements, resumptions, and every error; in numbers, RemoteWire.KindsAre, and over whole runs, RemoteChannels.ChannelsAre |
| RemoteSession.Remote.ControlAck | scamper-cvs-20250505/scamper/scamper_control.c:2459-2486 | an acknowledgement takes the first message off the queue, or is an error |
| RemoteSession.Remote.ControlMasterOk | scamper-cvs-20250505/scamper/scamper_control.c:2507-2540 | drops what the controller has, and sends the rest of the queue again |
| RemoteSession.Remote.ControlMasterId | scamper-cvs-20250505/scamper/scamper_control.c:2294-2350 | a good name is taken over and starts the session; a name that was there before goes in any case |
| RemoteSession.Remote.SendResume | scamper-cvs-20250505/scamper/scamper_control.c:2740-2761 | the resumption carries the number expected, the first unacknowledged and the next |
| RemoteSession.Remote.Lost | scamper-cvs-20250505/scamper/scamper_control.c:1925-2043 | the connection goes; a session that cannot be resumed loses its name, channels, numbers and messages |
| RemotePeer.ReadsResumption | scamper-cvs-20250505/utils/sc_remoted/sc_remoted.c:1897-1935 | the controller reads from a resumption what was put into it |
| RemoteProtocol.SeqOrder | scamper-cvs-20250505/internal.h:789-800 | SEQ_LT and SEQ_GT order positions correctly while they are less than 2^31 apart |
| RemoteProtocol.UnackedFrom | scamper-cvs-20250505/scamper/scamper_control.c:2520-2527 | dropping messages below a number leaves the log from that position on |
| RemoteProtocol.SendSide | scamper-cvs-20250505/scamper/scamper_control.c:2160-2187 | sending keeps the queue equal to the log from the first unacknowledged message |
| RemoteProtocol.ReceiveReads | scamper-cvs-20250505/scamper/scamper_control.c:2572-2605 | the next frame in order never upsets scamper: it is accepted and acknowledged, even if its channel has gone, or acknowledges the first message of the queue |
| RemoteProtocol.PeerReceiveReads | scamper-cvs-20250505/utils/sc_remoted/sc_remoted.c:2067-2225 | nor does it upset the controller |
| RemoteRuns.DialSent | scamper-cvs-20250505/scamper/scamper_control.c:2740-2761 | the bytes of a resumption say the positions of both logs |
| RemoteRuns.Answered | scamper-cvs-20250505/utils/sc_remoted/sc_remoted.c:1946-2051 | the controller never rejects the resumption that scamper waits for, and sends what is missing |
| RemoteRuns.InvKept | scamper-cvs-20250505/scamper/scamper_control.c:2141-2202 | every send, read, loss at either end, dial, answer and late answer to an abandoned dial keeps the invariant |
| RemoteRuns.ExactlyOnce | scamper-cvs-20250505/scamper/scamper_control.c:2141-2202 | in every run what each end has accepted is a prefix of what the other has sent, and the queue is exactly the log from the first unacknowledged message on |
| RemoteRuns.NeverMistaken | scamper-cvs-20250505/scamper/scamper_control.c:2459-2540 | in no run does either end see a wrong number or a wrong acknowledgement, and no awaited resumption is rejected; all that can fail is a message for a channel that has gone |
| RemoteRuns.EverythingArrives | scamper-cvs-20250505/scamper/scamper_control.c:2507-2540 | once both ends are on one connection and have read it, each has all the other ever sent and nothing waits for an acknowledgement |
| RemoteRuns.SizesFit | scamper-cvs-20250505/scamper/scamper_control.c:2141-2155 | every frame under way carries 1 to 65535 bytes |
| RemoteRuns.BytesAreReads | scamper-cvs-20250505/scamper/scamper_control.c:2619-2684 | in whatever pieces the bytes of the frames under way arrive, reading them has the effect of the steps of a run |
| RemoteChannels.LogsAreRun | scamper-cvs-20250505/scamper/scamper_control.c:2141-2202 | the logs that the results speak of are the messages of the run itself: what was sent is that, in order, and what was accepted is a prefix of it |
| RemoteChannels.ChannelsAre | scamper-cvs-20250505/scamper/scamper_control.c:2352-2421 | in every run the channels open, with those whose work has been done, are exactly the channels named by the accepted messages of five octets that begin with 2 |
| RemoteChannels.OpenChannelsWork | scamper-cvs-20250505/scamper/scamper_control.c:2659-2681 | in every run a frame for a channel, or that closes one, is taken well if and only if the channel has been opened more often than its work has been done |
| RemoteWire.FrameOctets | scamper-cvs-20250505/scamper/scamper_control.c:2105-2135 | the octets of a frame: number, channel, length and data |
| RemoteWire.MessageOctets | scamper-cvs-20250505/scamper/scamper_control.c:2740-2761 | the octets of acknowledgements, resumptions, their answer and keepalives |
| RemoteWire.NamedBy | scamper-cvs-20250505/scamper/scamper_control.c:2294-2350 | a message with the length of a printable string, the string and a zero names the session by it |
| RemoteWire.OnlyNames | scamper-cvs-20250505/scamper/scamper_control.c:2294-2350 | and no other message does; it takes the old name away |
| RemoteWire.KindsAre | scamper-cvs-20250505/scamper/scamper_control.c:2542-2611 | what the other kinds of message come to, by their first octet and by whether the session goes |
| Ip4Bits.FbdAgrees | scamper-cvs-20250505/mjl_prefixtree.c:302-323 | the first differing bit: all bits before it agree, and it differs |
| Ip4Bits.IpInAgrees | scamper-cvs-20250505/mjl_prefixtree.c:376-382 | the mask test holds just if the address has all bits of the prefix |
| Ip4Bits.ValidBits | scamper-cvs-20250505/mjl_prefixtree.c:369-374 | a prefix is valid just if no bit after its length is set |
| PrefixTree.PrefixFbd | scamper-cvs-20250505/mjl_prefixtree.c:302-323 | the portable bit count computes the first differing bit |
| PrefixTrie.Members | scamper-cvs-20250505/mjl_prefixtree.c:631-774 | all prefixes below a node are at least as long, begin with its bits and lie on their own side |
| PrefixTrie.OnTheWay | scamper-cvs-20250505/mjl_prefixtree.c:489-499 | every stored prefix that contains an address is on the way that the address takes |
| PrefixTrie.RisingUp | scamper-cvs-20250505/mjl_prefixtree.c:687-692 | a step up to the parent keeps the subtree in place, on the path of the prefix, as long as the parent branches at or after the first differing bit |
| PrefixTrie.DuplicateIs | scamper-cvs-20250505/mjl_prefixtree.c:694-701 | the test for a duplicate holds just if the prefix is in the tree |
| PrefixTrie.PlacedOk | scamper-cvs-20250505/mjl_prefixtree.c:694-772 | each of the four ways to place a prefix keeps the tree in order and adds just that prefix |
| PrefixTree.Prefixtree.Insert | scamper-cvs-20250505/mjl_prefixtree.c:631-774 | refuses just the invalid prefixes and those already stored; otherwise adds exactly the prefix, parents included |
| PrefixTree.Prefixtree.FindIp4 | scamper-cvs-20250505/mjl_prefixtree.c:482-510 | returns a longest stored prefix that contains the address, or nothing if none does; 33 places are enough for the stack |
| PrefixTree.Prefixtree.FindBest4 | scamper-cvs-20250505/mjl_prefixtree.c:512-543 | returns a longest stored prefix that contains the query and is no longer than it, for every query on which no assertion fails: those of more than 32 bits fail just if their way meets a node of 32 bits |
| PrefixTree.Prefixtree.FindExact4 | scamper-cvs-20250505/mjl_prefixtree.c:545-554 | hits exactly a stored prefix of that length that contains the address; for a valid query, exactly the query |
| TaskQueue.Queue.AddTail | scamper-cvs-20250505/mjl_threadpool.c:217-225 | links a task at the tail |
| TaskQueue.Queue.AddHead | scamper-cvs-20250505/mjl_threadpool.c:226-233 | links a task at the head |
| TaskQueue.Queue.Take | scamper-cvs-20250505/mjl_threadpool.c:97-100 | takes the first task and keeps head and tail in order |
| ThreadPool.InvKept | scamper-cvs-20250505/mjl_threadpool.c:79-123 | every step of every thread keeps the invariant; the order in which tasks start is that of PoolOrder |
| ThreadPool.EachTaskOnce | scamper-cvs-20250505/mjl_threadpool.c:79-123 | in every interleaving an accepted task is either queued or has been started, once |
| ThreadPool.NobodySleepsOnWork | scamper-cvs-20250505/mjl_threadpool.c:182-247 | a non-empty queue never coexists with all workers waiting or gone; while one waits there are as many on the way as tasks queued; none waits once the pool is stopping |
| ThreadPool.JoinedMeansDone | scamper-cvs-20250505/mjl_threadpool.c:294-328 | when all workers have ended, the queue is empty and every accepted task has been run to its end, once |
| ThreadPool.NoDeadlock | scamper-cvs-20250505/mjl_threadpool.c:294-328 | a stopping pool with a worker left can always go on |
| ThreadPool.StopsInTheEnd | scamper-cvs-20250505/mjl_threadpool.c:79-123 | and each such step uses up some of a finite amount, so a join ends |
| PoolOrder.FirstInFirstOut | scamper-cvs-20250505/mjl_threadpool.c:217-225 | in every run that pushes nothing at the head, the tasks started and then those queued are the tasks pushed, in the order in which the run pushed them |
| PoolOrder.TailOrderKept | scamper-cvs-20250505/mjl_threadpool.c:215-234 | in every run, of two tasks pushed at the tail the one pushed first is started first, whatever is pushed at the head in between |
| PoolOrder.HeadIsNext | scamper-cvs-20250505/mjl_threadpool.c:226-234 | a task pushed at the head is the next one started, as long as no other is pushed at the head |
| UuCode.GroupBack | scamper-cvs-20250505/utils.c:2639-2649 | four characters decode to the three bytes that they encode |
| UuCode.EncLength | scamper-cvs-20250505/utils.c:2651-2697 | uuencode_len announces exactly the length of the encoding |
| UuCode.DecUndoesEnc | scamper-cvs-20250505/utils.c:2538-2637 | decoding undoes encoding, for every non-empty input |
| UuOctets.GroupIs | scamper-cvs-20250505/utils.c:2639-2649 | the four characters of a group are in range and are the digits, to the base 64, of its three bytes taken as one number |
| UuOctets.EncGroups | scamper-cvs-20250505/utils.c:2762-2820 | for every input and every third place, the group of the three bytes from there on is at its place in its line |
| UuOctets.EncLines | scamper-cvs-20250505/utils.c:2762-2820 | line k begins at octet 62 k with its length and ends in a newline after its groups |
| UuOctets.EncEnds | scamper-cvs-20250505/utils.c:2814-2816 | the encoding ends in the line without data |
| UuOctets.Dec4Is | scamper-cvs-20250505/utils.c:2447-2479 | the three bytes decoded are the number that the four characters stand for |
| UuOctets.LineRead | scamper-cvs-20250505/utils.c:2538-2637 | a line is decoded if and only if its length is 1 to 63, its characters are in range, a newline follows and the lines after it are decoded |
| UuOctets.EndRead | scamper-cvs-20250505/utils.c:2558-2560 | what is no such line is the end of the data, or an error |
| Uuencode.UuencodeLen | scamper-cvs-20250505/utils.c:2651-2697 | the length, and the numbers of complete lines and of bytes left over |
| Uuencode.Uuencode | scamper-cvs-20250505/utils.c:2762-2820 | the one-shot encoder fills its buffer exactly with the encoding |
| Uuencode.UuencodeBytes | scamper-cvs-20250505/utils.c:2705-2760 | what a call writes, with what is still to come after it, is what was to come before; with 64 bytes of space it always goes on |
| Uuencode.Pieces | scamper-cvs-20250505/utils.c:2705-2760 | for buffers of any sizes of at least 64 bytes, the pieces make up what the one-shot encoder writes, and go to the end if there are enough of them |
| Uudecode.Uudecode4 | scamper-cvs-20250505/utils.c:2447-2479 | refuses to fill nothing and characters out of range, and otherwise gives the bytes asked for |
| Uudecode.ScanSize | scamper-cvs-20250505/utils.c:2550-2588 | the first pass finds the size of what the second will decode |
| Uudecode.Uudecode | scamper-cvs-20250505/utils.c:2538-2637 | the two passes return what the lines hold, or nothing if a length, a character or a line end is wrong |
| ClientWrite.DigitsSay | scamper-cvs-20250505/scamper/scamper_control.c:1806-1809 | the number printed in the header reads back as that number |
| ClientWrite.Client.WriteDo | scamper-cvs-20250505/scamper/scamper_control.c:1775-1853 | what has been sent is always the items in order up to the rest of the current one, and up to somewhere in the last one if a send fails: each object stands whole behind a header that announces exactly its bytes, and no text line inside it; that a client reads this back is ClientRead.SentBack |
| ClientRead.ObjectBack | scamper-cvs-20250505/lib/libscamperctrl/libscamperctrl.c:927-974 | a reader of octets takes from every object, in either format and whatever follows, the object with its number, and goes on with what follows |
| ClientRead.StreamBack | scamper-cvs-20250505/lib/libscamperctrl/libscamperctrl.c:846-974 | it reads every stream of lines and objects back as these |
| ClientRead.SentBack | scamper-cvs-20250505/scamper/scamper_control.c:1775-1853 | so what a client has been sent between objects it reads as the items begun so far, in order, and the same during an object with the rest of it |
| ClientRead.RoomFits | scamper-cvs-20250505/lib/libscamperctrl/libscamperctrl.c:937-956 | the room that libscamperctrl makes for an object from the announced length is never too small and at most two bytes too large |
| WartsAddrs.AddrTable.Size | scamper-cvs-20250505/scamper/scamper_file_warts.c:507-532 | numbers a new address next, and adds its size to the 16-bit total unless that would wrap |
| WartsAddrs.AddrTable.Insert | scamper-cvs-20250505/scamper/scamper_file_warts.c:590-624 | writes an address in full the first time, and its number after that |
| WartsAddrs.AddrReader.Extract | scamper-cvs-20250505/scamper/scamper_file_warts.c:753-819 | reads an address or a number, and puts a new address into the table |
| WartsAddrs.RoundTrip | scamper-cvs-20250505/scamper/scamper_file_warts.c:590-624 | what was written is read back if and only if the numbers used are the places among the addresses written |
| WartsAddrs.SameNumbersIs | scamper-cvs-20250505/scamper/scamper_file_warts.c:507-532 | that is, if and only if every address that comes again was the same one in order for both passes |
| WartsAddrs.SizedThenWritten | scamper-cvs-20250505/scamper/scamper_file_warts.c:753-819 | so any sequence written in the order of the sizing pass is read back as it was |
| WartsAddrs.OtherOrderFails | scamper-cvs-20250505/scamper/scamper_file_warts.c:590-624 | two addresses sized as a, b, b and written as b, a, b are not read back |
| WartsAddrs.SizesAgree | scamper-cvs-20250505/scamper/scamper_file_warts.c:507-532 | in whatever order the addresses are written, the bytes add up to the total of the sizing pass |
| WartsOctets.FirstOfOrdered | scamper-cvs-20250505/scamper/scamper_file_warts.c:507-532 | the numbers of a dictionary go by where its entries first occur |
| WartsOctets.AddrSizes | scamper-cvs-20250505/scamper/scamper_addr.c:131-190 | the sizes of the four types of address |
| WartsOctets.AddrOctets | scamper-cvs-20250505/scamper/scamper_file_warts.c:590-624 | the octets of an address that comes first, and of one that comes again |
| WartsOctets.AddrRead | scamper-cvs-20250505/scamper/scamper_file_warts.c:753-819 | which octets are read as an address in full: its bytes are all those that its length announces if the type has that length |
| WartsIfnames.IfnameTable.Size | scamper-cvs-20250505/scamper/scamper_file_warts.c:308-341 | numbers a new name while fewer than 254 have numbers, and adds its size unless the total would wrap |
| WartsIfnames.IfnameTable.Insert | scamper-cvs-20250505/scamper/scamper_file_warts.c:386-413 | writes a name in full behind its number or behind zero, or only the number of one already written |
| WartsIfnames.IfnameReader.Extract | scamper-cvs-20250505/scamper/scamper_file_warts.c:415-470 | reads a number or a name, and puts a new name with a number into the table |
| WartsIfnames.RoundTrip | scamper-cvs-20250505/scamper/scamper_file_warts.c:386-470 | what was written is read back if and only if the names with numbers are first written in the order of their numbers |
| WartsIfnames.InOrderIs | scamper-cvs-20250505/scamper/scamper_file_warts.c:438-464 | that is, if and only if the names with numbers, by their first occurrences, are a prefix of the order of the sizing pass |
| WartsIfnames.SizedThenWritten | scamper-cvs-20250505/scamper/scamper_file_warts.c:415-470 | so any number of names written in the order of the sizing pass is read back as it was |
| WartsIfnames.OtherOrderFails | scamper-cvs-20250505/scamper/scamper_file_warts.c:438-444 | two names sized as a, b and written as b, a are not read back |
| WartsIfnames.SizesAgree | scamper-cvs-20250505/scamper/scamper_file_warts.c:308-341 | in whatever order the names are written, the bytes add up to the total of the sizing pass |
| WartsOctets.Numbered | scamper-cvs-20250505/scamper/scamper_file_warts.c:308-341 | the first 254 names get numbers |
| WartsOctets.NameOctets | scamper-cvs-20250505/scamper/scamper_file_warts.c:386-413 | the octets of a name with a number, the first time and again, and of one without |
| WartsParams.FlagSet | scamper-cvs-20250505/scamper/scamper_file_warts.c:210-222 | sets the flag of one parameter, leaves all others, and keeps the largest number; in numbers, the byte of the flag grows by the power of two at its place if the flag was clear, and no other byte changes |
| WartsParams.FlagNumber | scamper-cvs-20250505/scamper/scamper_file_warts.c:224-235 | a flag is bit p mod 7 of byte p / 7, the lowest bit first |
| WartsParams.LinkNumber | scamper-cvs-20250505/scamper/scamper_file_warts.c:261-268 | a byte links to the next just if it is at least 128 |
| WartsParams.FoldFlags | scamper-cvs-20250505/scamper/scamper_file_warts.c:244-272 | links all flag bytes that are used by adding 128, changes no flag, and returns their number, one for every seven parameters begun |
| WartsParams.ParamFlags | scamper-cvs-20250505/scamper/scamper_file_warts.c:1486-1509 | the flags of a set of parameters, zeroed, set and folded: none but those of the set |
| WartsParams.ParamsBack | scamper-cvs-20250505/scamper/scamper_file_warts.c:1033-1185 | for any set of parameters and any handlers whose read undoes their write, also if they share a state, a reader recovers every parameter it has a handler for and ends where the block ends, even with fewer handlers than the writer |
| WartsParams.SetsBack | scamper-cvs-20250505/scamper/scamper_file_warts.c:1033-1185 | setting, folding, writing and reading gives exactly the parameters of the set, in order, as far as there are handlers |
| WartsParams.BodyInOrder | scamper-cvs-20250505/scamper/scamper_file_warts.c:1122-1185 | the parameters of a block stand one after the other by their numbers |
| WartsParams.BlockOctets | scamper-cvs-20250505/scamper/scamper_file_warts.c:1122-1185 | the octets of a block for any set of parameters: flags, links, length and parameters |
| WartsParamIo.ParamsWrite | scamper-cvs-20250505/scamper/scamper_file_warts.c:1122-1185 | writes the flags, the length and the parameters in order |
| WartsParamIo.ParamsRead | scamper-cvs-20250505/scamper/scamper_file_warts.c:1033-1120 | reads the parameters whose flags are set up to the first without a handler, passing the state of the handlers on, and skips to the end of the block |
| ProbePacing.CmpIs | scamper-cvs-20250505/utils.c:855-864 | timeval_cmp compares times as numbers of microseconds |
| ProbePacing.AddUs | scamper-cvs-20250505/utils.c:903-909 | adds microseconds and leaves a normal time |
| ProbePacing.SubUs | scamper-cvs-20250505/utils.c:918-924 | subtracts microseconds and leaves a normal time |
| ProbePacing.InRangeUs | scamper-cvs-20250505/utils.c:1024-1041 | tells whether two times are within a distance, either way round |
| ProbePacing.Pacer.PpsWindowSet | scamper-cvs-20250505/scamper/scamper.c:557-590 | which settings are refused, and that the wait between probes and the window follow the rate |
| ProbePacing.Pacer.Round | scamper-cvs-20250505/scamper/scamper.c:2418-2471 | how many probes one round sends, and the time of the last probe after it |
| ProbePacing.RoundSends | scamper-cvs-20250505/scamper/scamper.c:2427-2470 | after too long a gap, in either direction, a round with work sends exactly one probe; any other sends those that are due by the clock, as far as there is work; and without a wait all the work |
| ProbePacing.RoundKeeps | scamper-cvs-20250505/scamper/scamper.c:2418-2471 | the time of the last probe never goes back or passes the clock, and with work left the next probe is strictly in the future |
| ProbePacing.RateBound | scamper-cvs-20250505/scamper/scamper.c:2418-2471 | in any stretch of time at most (its length + window) / wait probes are sent, however the rounds fall |
| ProbePacing.RateReached | scamper-cvs-20250505/scamper/scamper.c:2433-2470 | while there is work and the loop comes round within the window, the probes fill the time up to one wait |
| HeapOrder.UpStep | scamper-cvs-20250505/mjl_heap.c:114-130 | one step up leaves the array out of order at most one place further up |
| HeapOrder.DownStep | scamper-cvs-20250505/mjl_heap.c:132-157 | one step down, past the larger child, leaves it out of order at most there |
| HeapOrder.ReplaceOrder | scamper-cvs-20250505/mjl_heap.c:376-398 | which way the last node must go depends just on how it compares with the node that it replaces |
| HeapOrder.FirstIsHighest | scamper-cvs-20250505/mjl_heap.c:298-304 | the first node has the highest priority |
| Heap.Heap.UpHeap | scamper-cvs-20250505/mjl_heap.c:114-130 | restores the order, with every node knowing its place |
| Heap.Heap.DownHeap | scamper-cvs-20250505/mjl_heap.c:132-157 | restores the order, with every node knowing its place |
| Heap.Heap.Remake | scamper-cvs-20250505/mjl_heap.c:217-225 | restores the order from any arrangement of the nodes |
| Heap.Heap.Insert | scamper-cvs-20250505/mjl_heap.c:228-278 | adds one new node, growing the array when it is full |
| Heap.Heap.HeadItem | scamper-cvs-20250505/mjl_heap.c:298-304 | the highest priority of all, or nothing if the heap is empty |
| Heap.Heap.Remove | scamper-cvs-20250505/mjl_heap.c:306-329 | takes out exactly one node, of the highest priority of all |
| Heap.Heap.Delete | scamper-cvs-20250505/mjl_heap.c:362-403 | takes out exactly the given node, through its own number |

## Left out

- Allocation failures, and failures of pthread calls: they are taken to succeed.
- Sockets, TLS, timers and files: what is read and sent is a parameter or a log; the keepalive and abort timers become steps that can happen at any time.
- The IPv6 prefix tree, which runs the same algorithm on four words.
- splaytree_findclosest, splaytree_depth, the display functions and splaytree_free.
- The Windows and DMALLOC variants, and the processor instruction for leading zeroes; the portable form is modelled.
- The Linux header constants that the filter compares with (ARPHRD and SKF_AD values, IPPROTO numbers) are not in the repository; they are given by value.
- Items of trees, tries and heaps are numbers or bit strings with an order; comparison callbacks are taken to be that order.
- RemoteSession.Remote.Control: models which channels are open, not the work that a channel does for scamper, nor the counter that names its list; a channel that is done goes at any time.
- RemoteSession.Remote.Dispatch: hands the bytes of a message to no line reader, because a line reader cannot fail.
- RemoteSession.Remote.Lost: does not model when the next attempt to connect is made.
- Generation of a new magic value after a rejection, and sessions after the first: a run is about one magic value.
- Uudecode.Uudecode: an input that ends in the middle of a line or of the last line is an error, where the source may read one byte past its end.
- WartsAddrs.AddrReader.Extract: an address that is cut off is an error, where the source checks less and reads on.
- WartsParamIo.ParamsRead: flags that are cut off are an error, where the source reads a byte past the end before it finds out.
- Mutex and condition variable operations inside one critical section of the thread pool are one step; threadc == 0, which runs tasks at once, and a locking push from an onion task, which would not return, are not steps.
- ClientWrite.Client.WriteDo: the numbers in headers are not cut to the width of int.
- ClientRead.StreamBack: the reader takes "DATA" and " id-" only in the case in which they are sent, and does not act on the other lines; libscamperctrl decodes line by line, and refuses an object of less than three bytes or with the number 0.
- The table of line sizes in uuencode_bytes and the mask table of mjl_prefixtree.c are given by the formulas that produce their entries.
- RemoteRuns.EverythingArrives: says what holds once everything under way has been read, not that it will be read.
- Priorities that change while a node is in the heap; heap_remake is proved from any arrangement instead.
