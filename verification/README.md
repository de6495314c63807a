# A verified model of the containers, codecs and protocols in the repository

The repository copies or vendors a red-black tree and a hash table (`cocool/`) and libevent
(`net/libevent/`). This Dafny project models the parts of them whose correctness is hard to see
and proves what they promise: structural invariants of every operation on mutable objects,
refinement of simple mathematical values, round trips of the codecs, and properties of whole runs
of the event pipeline and the rate limiter. Code that changes objects step by step is modelled by
classes and loops in the same steps; the functions and lemmas beside them say what the results mean.

`dafny verify dfyconfig.toml` checks everything.

## What is modelled

- **Red-black tree** (`RbModel`, `RbHeap`, `RbTrees`). Nodes are mutable objects with parent
  links. `RbModel` proves on trees and one-hole contexts what each rotation and recolouring means,
  `RbHeap` that the pointer writes of the code do just that to a heap, and `RbTrees` that the loops
  of insertion, erasure and traversal terminate, never follow a null pointer and leave a red-black
  tree with exactly the right in-order sequence; and that any run of insertions and removals
  leaves the nodes, and returns what, the same run on a set does (`Run`).
- **DNS names** (`DnsName`, `DnsCodec`). The encoder with its compression table and the parser that
  follows pointers (section 4.1.4 of RFC 1035): any packet of at most 16 KB built with one shared
  table, and so any response, is read back name by name (`PacketRoundTrip`). An empty inner label
  ends a name (`ReadableIff`, `EncodeEnds`). The terminating zero is written without a bounds test:
  `OverrunExact` says for which names and buffers it lands one byte behind the buffer, and
  `ResponseOverruns` that the 1500-byte buffer of a response can be one; request buffers are large
  enough (`RequestBufferSuffices`). Pointer positions from 0x4000 on would be cut to 14 bits
  (`PointerExact`, `WideOffsetBreaks`), a latent fault as no caller's buffer is that large; that no
  table entry lies there is sufficient for the round trip, not necessary, as an entry that is never
  used does no harm.
- **Interest in file descriptors** (`EpollTable`, `EventMap`). Reference counts per fd, the
  coalescing changelist, the operation table and `epoll_ctl` with its retries and errors, and a step
  in which an fd is closed and reopened behind the map's back. The kernel's set equals the wanted
  set after every dispatch for every fd that was not reopened and whose change the kernel did not
  refuse, and any run of calls leaves both backends with the same kinds (`BackendsAgree`). The
  edge-trigger flag does not enjoy this: it is what the last effective change of reading or writing
  asked for. `IoAdd`, `IoDel` and `Dispatch` say exactly when it is set and lost, and
  `EdgeTriggerLost` is a run of five calls that loses it.
- **evbuffer** (`EvChain`, `EvBuffers`, `EvSearch`, `EvRuns`). Mutable blocks in a list behave as one flat byte
  sequence; `last_with_datap` is an index that always names the last block with data, and all
  blocks with data precede all empty ones. Any sequence of calls on two buffers is a fold over two
  byte sequences (`EvRuns.Run`). Searching block by block is searching the flat bytes. A
  parameter `memory` says whether malloc succeeds. `evbuffer_remove_buffer` ignores the result of
  `evbuffer_add`; the contract of `RemoveBuffer` says exactly when and which bytes are lost then, and
  `RemoveBufferLosesBytes` is such a run. A prepend that fails for lack of memory leaves a suffix of
  the data in the buffer. Results that the code converts to `int` are converted here too (`AsInt`).
- **Two hash tables** (`HashRuns`, `SqliteHash`; `HtTable`, `HtGrow`, `HtHash`). The SQLite table
  refines a map on keys up to case, its buckets being runs of one list. The table of
  `ht-internal.h` keeps its elements through both ways of growing; its size loop tests its index too
  late, which matters exactly for a table that is not at the last prime and is to hold that prime's
  load limit or more (`PickSize`, `NoPrimeIsEnough`). Any run of calls is the run on a map
  (`SqliteHash.Run`) or, while fewer keys are held than the last prime's load limit, on a set of keys
  (`HtHash.Run`).
- **Rate limiter** (`TokenBucket`, `RateLimit`). Refill arithmetic in machine words, conformance of
  every window of every run of reads, writes and timer firings on the real object (`RateLimit.Run`),
  and the suspend and refill protocol without lost wake-ups. A refill caps a limit if and only if it
  is not above its maximum already (`RefillCaps`); giving bytes back can put it there
  (`GivingBackOverfills`).
- **Timer heap** (`MinHeap`): any run of calls gives what a map from events to timeouts may give.
- **Tagged records** (`TagCodec`, `TagBuffer`, on the evbuffer model) and **arc4random**
  (`Arc4Random`). The writers ignore failures of `evbuffer_add`: `Marshal` says exactly which parts
  of a record are written, from the room at the end of the buffer and the memory there is, and
  `MarshalTears` is a run in which the tag is not. A comment
  (net/libevent/src/event_tagging.c:91) calls the nibbles of an integer big-endian; the code puts
  the least significant first, and so does the model. Its example of a tag of two bytes (line 82)
  is not what the code writes either.
- **Resolver queues** (`EvdnsRing`, `Resolver`). The pointer surgery of and the walk around the
  circular lists, and the
  invariant of in-flight and waiting requests, servers and counters under every step of a
  request's life, with arbitrary outcomes of `sendto`.

`Sequences` holds what several of them need about sequences without repetition.

Assumptions about what the repository does not show: `sqlite3UpperToLower` lowers ASCII letters,
`sqlite3StrICmp` is equality after that, an allocation has at least the size asked for, and
`eqfn` of `ht-internal.h` is equality of keys.

## Model

| member | source | states |
|---|---|---|
| RbModel.RotationInorder | cocool/co_rbtree.c:32-72 | Neither rotation changes the in-order sequence. |
| RbModel.GrandparentExists | cocool/co_rbtree.c:80-84 | A red node below a red parent has a black grandparent and a black sibling, so the loop never follows a missing grandparent. |
| RbModel.RecolorKeeps | cocool/co_rbtree.c:88-95 | With a red uncle, recolouring keeps the sequence and every rule but one, and moves the one violation two levels up. |
| RbModel.StraightenLeftKeeps | cocool/co_rbtree.c:125-132 | Straightening a bent line below a right-hand parent keeps the only violation where it was. |
| RbModel.StraightenRightKeeps | cocool/co_rbtree.c:98-105 | The mirror image, below a left-hand parent. |
| RbModel.RotateRightKeeps | cocool/co_rbtree.c:107-109 | With a black uncle, recolouring and rotating right at the grandparent removes the violation and keeps black heights. |
| RbModel.RotateLeftKeeps | cocool/co_rbtree.c:134-136 | The mirror image. |
| RbModel.ClimbDone | cocool/co_rbtree.c:140 | When the climb stops, blackening the root makes the whole tree red-black, with the same sequence. |
| RbModel.SiblingExists | cocool/co_rbtree.c:153-163 | The node that is one black short always has a sibling, and a red sibling has two children: the fix-up dereferences no null pointer. |
| RbModel.RedSiblingLeft | cocool/co_rbtree.c:154-160 | Rotating a red sibling up keeps the debt the only violation (left branch). |
| RbModel.RedSiblingRight | cocool/co_rbtree.c:192-198 | The mirror image. |
| RbModel.ReddenSibling | cocool/co_rbtree.c:161-168 | With black nephews the sibling turns red and exactly the parent owes a black node then. |
| RbModel.FarLeftKeeps | cocool/co_rbtree.c:171-179 | Rotating at the sibling makes the far nephew red and keeps the debt the only violation (left branch). |
| RbModel.FarRightKeeps | cocool/co_rbtree.c:209-217 | The mirror image. |
| RbModel.PaidLeftOk | cocool/co_rbtree.c:180-186 | With a red far nephew the last rotation makes the whole tree red-black, with the same sequence. |
| RbModel.PaidRightOk | cocool/co_rbtree.c:218-224 | The mirror image. |
| RbModel.ShortDone | cocool/co_rbtree.c:228-229 | When the debt reaches a red node or the root, blackening that node pays it. |
| RbModel.UnlinkInorder | cocool/co_rbtree.c:293-306 | Bypassing a node with at most one child removes exactly that node from the sequence. |
| RbModel.UnlinkColors | cocool/co_rbtree.c:308-309 | A red node can be bypassed for free; bypassing a black one leaves exactly one debt. |
| RbModel.SuccessorInorder | cocool/co_rbtree.c:247-285 | Moving the successor to the erased node's place takes exactly the erased node out of the sequence. |
| RbModel.SuccessorParent | cocool/co_rbtree.c:266-267 | The test whether the successor's parent is the erased node holds exactly when the successor is its right child. |
| RbModel.SearchStep | include/co_rbtree.h:60-71 | One comparison: the half that is dropped cannot hold the key. |
| RbModel.NotFound | include/co_rbtree.h:60-71 | Where the search ends without the key, no node of the tree has it. |
| RbModel.OrderedInsert | include/co_rbtree.h:73-78 | A leaf linked where the search ended keeps the keys ascending. |
| RbModel.PlugRedBlack | cocool/co_rbtree.c:74-141 | A subtree of the right black height in a good context makes a red-black tree. |
| RbModel.UnplugRedBlack | cocool/co_rbtree.c:74-141 | Conversely every subtree of a red-black tree sits in a good context, with a height that fits. |
| RbModel.HeightIsLogarithmic | cocool/co_rbtree.c:74-141 | A red-black tree is at most 2 * log2(n + 1) high. |
| RbHeap.RotateLeftAt | cocool/co_rbtree.c:32-51 | The pointer writes of the code, on a heap of nodes with parent links, are exactly a left rotation of the tree in its context. |
| RbHeap.RotateRightAt | cocool/co_rbtree.c:53-72 | The same for the right rotation. |
| RbHeap.RotateLeftCells | cocool/co_rbtree.c:32-51 | The up to four nodes a left rotation touches are known and pairwise different, so no write undoes another. |
| RbHeap.RotateRightCells | cocool/co_rbtree.c:53-72 | The same for the right rotation. |
| RbHeap.UnlinkAt | cocool/co_rbtree.c:296-306 | The pointer writes that bypass a node leave consistent links, and the node is out of the tree. |
| RbHeap.ReplaceAt | cocool/co_rbtree.c:268-285 | The pointer writes that put another node in the erased node's place leave consistent links, with every other node where it was. |
| RbHeap.LinkAt | include/co_rbtree.h:73-78 | The writes that link a leaf leave consistent links. |
| RbHeap.Grandparent | cocool/co_rbtree.c:82-88 | What the code reads as grandparent and uncle is the grandparent and the uncle. |
| RbHeap.Sides | cocool/co_rbtree.c:151-163 | What the code reads as sibling and nephews is the sibling and the nephews, also when child is null. |
| RbHeap.RootTest | cocool/co_rbtree.c:149 | Comparing child with the root pointer tells whether the debt is at the top, also when child is null. |
| RbTrees.RbTree.RotateLeft | cocool/co_rbtree.c:32-51 | On the mutable nodes, the tree in its context is rotated and nothing else moves. |
| RbTrees.RbTree.RotateRight | cocool/co_rbtree.c:53-72 | The mirror image. |
| RbTrees.RbTree.RecolorStep | cocool/co_rbtree.c:88-95 | The focus climbs two levels, the sequence stays. |
| RbTrees.RbTree.BlackUncleLeft | cocool/co_rbtree.c:98-109 | One or two rotations, same sequence, and the focus is higher. |
| RbTrees.RbTree.BlackUncleRight | cocool/co_rbtree.c:125-136 | The mirror image. |
| RbTrees.RbTree.ClimbStep | cocool/co_rbtree.c:80-138 | Every turn of the loop keeps sequence and links, leaves at most one violation and brings the focus strictly nearer to the root, so the loop ends. |
| RbTrees.RbTree.Rebalance | cocool/co_rbtree.c:74-141 | From a red-black tree with a leaf just linked in, in any colour: a red-black tree with consistent links and the same in-order sequence. |
| RbTrees.RbTree.ShortStepLeft | cocool/co_rbtree.c:151-188 | One turn of the erase fix-up: sequence and links stay, and the debt is paid, or nearer to the root, or at a red node. |
| RbTrees.RbTree.ShortStepRight | cocool/co_rbtree.c:189-226 | The mirror image. |
| RbTrees.RbTree.ReddenStep | cocool/co_rbtree.c:165-167 | The debt moves to the parent. |
| RbTrees.RbTree.PayLeft | cocool/co_rbtree.c:169-187 | With a red nephew the debt is paid for good. |
| RbTrees.RbTree.PayRight | cocool/co_rbtree.c:207-225 | The mirror image. |
| RbTrees.RbTree.EraseRebalance | cocool/co_rbtree.c:144-230 | A tree with one debt anywhere becomes red-black; sequence and links stay; the loop ends. |
| RbTrees.RbTree.EraseThin | cocool/co_rbtree.c:293-309 | A node with at most one child is erased: the in-order sequence without it. |
| RbTrees.RbTree.EraseFull | cocool/co_rbtree.c:243-291 | A node with two children is erased: its successor is relinked, not copied, and the sequence is the old one without the node. |
| RbTrees.RbTree.MoveUp | cocool/co_rbtree.c:247-285 | The successor is unlinked and put where the erased node was; the parent handed to the fix-up is the right one, and the sequence lacks exactly the erased node. |
| RbTrees.RbTree.Erase | cocool/co_rbtree.c:233-310 | Erasing any node of a valid tree leaves a valid tree whose in-order sequence is the old one without that node. |
| RbTrees.RbTree.Search | include/co_rbtree.h:56-71 | Finds the node with the key, or the one place where a leaf with the key keeps the order. |
| RbTrees.RbTree.Descend | include/co_rbtree.h:60-71 | One comparison goes to the side the key belongs to. |
| RbTrees.RbTree.LinkLeaf | include/co_rbtree.h:73-78 | The leaf is linked where the search ended. |
| RbTrees.RbTree.Insert | include/co_rbtree.h:52-80 | Finds the key and writes nothing at all, or adds exactly the node, with the tree valid and in order. |
| RbTrees.RbTree.LeftmostBelow | cocool/co_rbtree.c:247-249 | The descent ends at the first node of the subtree, without a left child. |
| RbTrees.RbTree.First | cocool/co_rbtree.c:324-336 | On any linked tree, red-black or not: the first node of the sequence; for an empty tree the traversal stays as it was. |
| RbTrees.RbTree.Next | cocool/co_rbtree.c:338-357 | On any linked tree: the node after the current one in the sequence, null after the last. |
| RbTrees.RbTree.ClimbOut | cocool/co_rbtree.c:346-347 | The climb ends at the first ancestor entered from the left, or at null, and terminates. |
| RbTrees.RbTree.WalkAll | cocool/co_rbtree.c:324-357 | rb_first and then rb_next until null visit every node of any linked tree once, in order. |
| RbTrees.Perform | cocool/co_rbtree.c:233-310 | One insertion or removal changes the set of nodes as it changes a set, and says whether the key was there. |
| RbTrees.Run | cocool/co_rbtree.c:74-310 | Any run of insertions and removals leaves a red-black tree in key order with exactly the nodes that the run on a set leaves; and each insertion returns the node that has the key there already, or null if none has. |
| DnsName.EncodeAppends | net/libevent/src/evdns.c:1624-1660 | An encoding only appends, at least one byte and at most one byte past the buffer length it was given. |
| DnsName.StoredParses | net/libevent/src/evdns.c:977-1010 | What is stored as a name at j, with strictly backward pointers, is read back as its labels; the pointer count never stops it. |
| DnsName.LabelStores | net/libevent/src/evdns.c:1630-1653 | A written label and what follows store the name from there, which is what the table entry says. |
| DnsName.PointerStores | net/libevent/src/evdns.c:1626-1628 | A pointer to a sound table entry stores the entry's name. |
| DnsName.EncodeStores | net/libevent/src/evdns.c:1599-1663 | The encoder leaves the name stored at its start, given a sound table. |
| DnsName.EncodeTable | net/libevent/src/evdns.c:1635-1646 | Every entry the encoder adds is sound: its position stores its suffix. |
| DnsName.EncodeTableGrows | net/libevent/src/evdns.c:1571-1586 | Table entries are only added, at positions inside the buffer. |
| DnsName.EncodeEnds | net/libevent/src/evdns.c:1005-1009 | For every name, with and without compression: the parser ends just past the encoding if and only if no empty label, with more behind it, is written before a pointer; otherwise it ends before. |
| DnsName.ReadableIff | net/libevent/src/evdns.c:1656-1659 | What is read back is the name itself exactly when it is empty or has no empty label; it is never longer. |
| DnsName.DottedLabels | net/libevent/src/evdns.c:994-1002 | Joining the labels with dots gives the name back. |
| DnsName.DottedShort | net/libevent/src/evdns.c:994-1002 | With an empty label something is lost. |
| DnsName.NameRoundTrip | net/libevent/src/evdns.c:1599-1663 | For every name, with and without compression, in any packet that continues the encoding: what name_parse returns, where it ends, and exactly when that is the name. |
| DnsName.BuildOk | net/libevent/src/evdns.c:1891-1960 | Any mix of names and other bytes in one packet with one shared table keeps the table sound and every name readable. |
| DnsName.PacketRoundTrip | net/libevent/src/evdns.c:959-1013 | Every name without empty labels in a packet of at most 16 KB, and so in every response, is read back exactly, with the offset just past it. |
| DnsName.WidePacketRoundTrip | net/libevent/src/evdns.c:959-1013 | The same in a packet of any size when no table entry is at 16 KB or beyond. |
| DnsName.SmallPacketNarrow | net/libevent/src/evdns.c:1627 | In packets of at most 0x4000 bytes every pointer position fits in 14 bits. |
| DnsName.PointerExact | net/libevent/src/evdns.c:1627 | A written pointer is read as its target if and only if the target is below 0x4000. |
| DnsName.WideOffsetBreaks | net/libevent/src/evdns.c:1627 | A latent fault, as no caller has a buffer that large: a table entry at 0x4000 is used for a name that is read back wrongly. |
| DnsName.PlainSize | net/libevent/src/evdns.c:1624-1660 | A name of which no part is in the table is written exactly when its labels are short and it fits but for the terminator, and its exact size then. |
| DnsName.SharedFits | net/libevent/src/evdns.c:1626-1629 | A name that ends in a pointer never leaves the buffer. |
| DnsName.OverrunExact | net/libevent/src/evdns.c:1656-1659 | The unchecked terminator is written behind the buffer, by one byte, if and only if no part of the name is in the table, the name is writable, not empty and without a dot at its end, and everything but the terminator fills the buffer exactly. |
| DnsName.ResponseOverruns | net/libevent/src/evdns.c:1890-1951 | The 1500-byte buffer of a response, with its table, is such a case: after a header and a record of the root name with 1475 bytes of data, whatever they are, the name "a" of the next record ends at 1501 bytes. |
| DnsName.RequestBufferSuffices | net/libevent/src/evdns.c:1668-1704 | The buffer of a request has room for header, name with terminator, type and class. |
| DnsCodec.LabelTable.GetPos | net/libevent/src/evdns.c:1559-1568 | The position of the first entry with the text, or -1. |
| DnsCodec.LabelTable.Add | net/libevent/src/evdns.c:1571-1586 | One entry more, unless the table is full. |
| DnsCodec.StoreLabel | net/libevent/src/evdns.c:1636-1639 | The length byte and the label are in the buffer behind what was there; all later bytes stay. |
| DnsCodec.PutLabel | net/libevent/src/evdns.c:1634-1650 | The label is in the buffer, and its text and position in the table. |
| DnsCodec.PutNext | net/libevent/src/evdns.c:1624-1653 | One turn of the loop: a pointer, or a label and what the rest comes to, or the error. |
| DnsCodec.PutLabels | net/libevent/src/evdns.c:1624-1653 | The whole loop: the encoding but for its terminator. |
| DnsCodec.Terminate | net/libevent/src/evdns.c:1656-1659 | A zero byte ends the encoding, unless the last byte is one already. |
| DnsCodec.DnsnameToLabels | net/libevent/src/evdns.c:1599-1663 | The loop over buffer and table computes the encoding the theorems are about, with the same error codes, for every start, and touches no byte past it; the buffer may be just as long as declared unless the name overruns it. |
| DnsCodec.CopyLabel | net/libevent/src/evdns.c:993-1002 | Succeeds exactly when dot and label fit and the label is in the packet, and appends them. |
| DnsCodec.NameParse | net/libevent/src/evdns.c:959-1013 | The loop over the packet computes the parse the theorems are about, for every packet, index and output size. |
| EpollTable.TableIsGenerated | net/libevent/include/epolltable-internal.h:124-1163 | All 512 literal rows, looked up by the shifted index, are what the pseudocode generates from old events and changes. |
| EpollTable.IndexSplit | net/libevent/include/epolltable-internal.h:124-130 | The index expression picks the block of the old events and the write change and in it the row of the read and close changes. |
| EventMap.RowForChange | net/libevent/include/epolltable-internal.h:136-1163 | For every change that can arise the row is never an impossible one, asks for exactly the wanted kinds, and picks ADD, MOD or DEL from the old and the wanted kinds. |
| EventMap.WantedMeansAsked | net/libevent/src/evmap.c:289-310 | A kind is wanted exactly when some event on the fd's list asks for it. |
| EventMap.WithoutCounts | net/libevent/src/evmap.c:378-406 | Taking an event off the list lowers each count by exactly its kinds. |
| EventMap.AddKeepsFinal | net/libevent/src/evmap.c:854-887 | Whatever was coalesced before, adding the new kinds to the pending change makes it ask for what is wanted after the add, and it is no no-op then. |
| EventMap.DelKeepsFinal | net/libevent/src/evmap.c:889-939 | The same for deletes, both coalesced and plain. |
| EventMap.AppliedOneMore | net/libevent/src/epoll.c:355-372 | One change more, taken or refused by the kernel: it settles its own fd and disturbs no other. |
| EventMap.QueuedOk | net/libevent/src/evmap.c:823-939 | Queueing a change and storing the new counts keeps the whole invariant of changes, indices, counts and kernel. |
| EventMap.RecountedOk | net/libevent/src/evmap.c:336-339 | Storing new counts alone keeps it when the same kinds stay wanted. |
| EventMap.AppliedOk | net/libevent/src/epoll.c:374-411 | Applying a change at once and storing the counts keeps it. |
| EventMap.NewSlotOk | net/libevent/src/evmap.c:253-260 | A slot for a new fd keeps it. |
| EventMap.FailedOk | net/libevent/src/evmap.c:390-406 | When the backend fails to delete, the counts go down all the same, and the invariant holds with the fd marked stale. |
| EventMap.DispatchOk | net/libevent/src/epoll.c:413-458 | After a dispatch the kernel has exactly the wanted kinds of every fd that is not stale: reopened since its last effective change, or with a change the kernel refused. |
| EventMap.QueuedPending | net/libevent/src/evmap.c:823-939 | A queued change is the one pending for its fd, and those of other fds stay. |
| EventMap.EventBase.EpollCtl | net/libevent/src/epoll.c:288 | What the kernel does: EEXIST and ENOENT by whether the fd is registered, EBADF and EPERM for an fd that is not, any other error at any time, or success with the new registrations; with no lasting errors on a base called reliable. |
| EventMap.EventBase.ApplyOneChange | net/libevent/src/epoll.c:266-353 | With the MOD-to-ADD and ADD-to-MOD retries and the ignored errors of DEL, the kernel ends with what the change asks for, whatever the fd was registered for before, or the result is -1 and nothing changed. |
| EventMap.EventBase.GetOrConstruct | net/libevent/src/evmap.c:823-852 | The fd's one change, found by its index or appended with the old kinds, every other change staying; or -1 when the list cannot grow. |
| EventMap.EventBase.ChangelistAdd | net/libevent/src/evmap.c:854-887 | The fd's pending change is coalesced with the add and every other one stays, or the list could not grow and nothing changes. |
| EventMap.EventBase.ChangelistDel | net/libevent/src/evmap.c:889-939 | The fd's pending change is coalesced with the delete, a delete of what the kernel does not have yet cancelling, or the list could not grow and nothing changes. |
| EventMap.EventBase.NochangelistAdd | net/libevent/src/epoll.c:374-393 | The kernel gets the add at once, or the result is -1. |
| EventMap.EventBase.NochangelistDel | net/libevent/src/epoll.c:395-411 | The kernel gets the delete at once, or the result is -1. |
| EventMap.EventBase.IoAdd | net/libevent/src/evmap.c:265-342 | Invariant kept; the event is on its fd's list and counted, every other fd is untouched, or the call fails and leaves no more than an unused slot. What is registered or pending is edge-triggered exactly when the event is and is the first to ask for reading or writing. |
| EventMap.EventBase.IoDel | net/libevent/src/evmap.c:346-409 | Invariant kept; the event is off the list and the counts even when the backend fails; an fd that loses a kind and keeps another is level-triggered, or asks for no edge triggering of the kinds lost; and an fd without a slot gives -1 and changes nothing. |
| EventMap.EventBase.ApplyChanges | net/libevent/src/epoll.c:355-372 | Every pending change is taken by the kernel or refused, each for its own fd; the result is -1 exactly when one was refused. |
| EventMap.EventBase.RemoveAll | net/libevent/src/evmap.c:767-786 | The list is empty and every index is cleared. |
| EventMap.EventBase.Dispatch | net/libevent/src/epoll.c:413-458 | Invariant kept; the kernel set of every fd that is not stale is exactly the kinds with a positive count, effective changes repair stale fds, and each fd with a change taken is edge-triggered exactly when the change asked for it. |
| EventMap.EventBase.CloseAndReopen | net/libevent/src/epoll.c:290-348 | Emptying the kernel's set of an fd behind the map's back keeps the invariant and only marks that fd. |
| EventMap.EventBase.EnterLater | net/libevent/src/evmap.c:319-339 | An add on the changelist: what the pending change asks for then, kind by kind, with edge triggering. |
| EventMap.EventBase.EnterNow | net/libevent/src/evmap.c:319-339 | An add at once: the registration of the fd then, with edge triggering. |
| EventMap.EventBase.LeaveLater | net/libevent/src/evmap.c:390-406 | A delete on the changelist: the kinds lost no longer ask for edge triggering. |
| EventMap.EventBase.LeaveNow | net/libevent/src/evmap.c:390-406 | A delete at once: what remains of the fd is level-triggered. |
| EventMap.BothDispatched | net/libevent/src/epoll.c:413-458 | Edge-triggered reading and writing, dispatched: both are counted and registered. |
| EventMap.EdgeTriggerLost | net/libevent/src/epoll.c:281-288 | Five calls on either backend after which an event that asked for edge-triggered reading is registered level-triggered. |
| EventMap.KernelsAgree | net/libevent/src/epoll.c:99-127 | Two bases with the same counts and no pending change have the same kinds registered for every fd stale in neither. |
| EventMap.StepBoth | net/libevent/src/epoll.c:99-127 | One call on two bases keeps their counts and events the same, unless it fails on one only, and marks only a reopened fd or one whose change was refused. |
| EventMap.BackendsAgree | net/libevent/src/epoll.c:99-127 | Any run of adds, deletes, dispatches and reopenings on two bases, with and without changelist: the same counts, events and, once dispatched, the same kinds in both kernels for every fd not reopened, whenever no call failed on one only. |
| EvChain.FlatConcat | net/libevent/include/evbuffer-internal.h:86-99 | The bytes of two lists of blocks in a row are their bytes in a row. |
| EvChain.ShapeFlat | net/libevent/include/evbuffer-internal.h:86-99 | In the invariant's shape all bytes are in the blocks up to last_with_datap, and none exist exactly when its block is empty. |
| EvChain.Chain.Append | net/libevent/src/buffer.c:1763-1765 | The data is behind what the block held. |
| EvChain.Chain.Prepend | net/libevent/src/buffer.c:1856-1859 | The data is in front of what the block held. |
| EvChain.Chain.DropFront | net/libevent/src/buffer.c:1150-1151 | The block's data without its first n bytes. |
| EvChain.Chain.Align | net/libevent/src/buffer.c:1902-1909 | The same data, with no hole in front. |
| EvChain.Chain.Read | net/libevent/src/buffer.c:1225-1242 | The part of the block's data asked for. |
| EvChain.ChainNew | net/libevent/src/buffer.c:155-192 | An empty block of exactly the size the doubling gives (Capacity); none exactly when the size is too large or malloc fails. |
| EvBuffers.KeptShape | net/libevent/src/buffer.c:289-302 | Cutting off the trailing empty blocks keeps shape and bytes, and leaves only blocks with data. |
| EvBuffers.GrownLast | net/libevent/src/buffer.c:1760-1779 | Growing the last block with data appends to the bytes and keeps the shape. |
| EvBuffers.Fronted | net/libevent/src/buffer.c:1876-1891 | A block with data linked in front of a list with data prepends its bytes and moves last_with_datap on by one. |
| EvBuffers.DropsPart | net/libevent/src/buffer.c:1125-1151 | Unlinking whole blocks and cutting the next one drops exactly the first bytes and keeps the shape. |
| EvBuffers.MovedPart | net/libevent/src/buffer.c:1287-1318 | Blocks moved as a whole all hold data and are exactly the front of the bytes. |
| EvBuffers.ShapeConcat | net/libevent/src/buffer.c:883-900 | Blocks with data in front of a list with data keep the shape and join the bytes. |
| EvBuffers.PulledShape | net/libevent/src/buffer.c:1414-1447 | A block with the gathered bytes in front of the rest keeps the shape. |
| EvBuffers.PullPlan | net/libevent/src/buffer.c:1344-1454 | The gathered block and the remaining ones have the bytes of the old list. |
| EvBuffers.EvBuffer.FreeTrailingEmptyChains | net/libevent/src/buffer.c:289-302 | Only empty trailing blocks go; the bytes stay. |
| EvBuffers.EvBuffer.ChainInsert | net/libevent/src/buffer.c:307-326 | The block is the last one, its data behind the bytes; empty trailing blocks may go. |
| EvBuffers.EvBuffer.Add | net/libevent/src/buffer.c:1722-1817 | Appends exactly the data, or fails and changes no byte; succeeds if and only if not frozen, the size does not overflow and there is room or memory; and the room at the end afterwards: the old room less what went there, that after moving the data to the front, or that of a new block. |
| EvBuffers.EvBuffer.AddNewChain | net/libevent/src/buffer.c:1785-1809 | What fits goes into the last block and the rest into a new one, or nothing happens at all. |
| EvBuffers.EvBuffer.Prepend | net/libevent/src/buffer.c:1819-1899 | Prepends exactly the data, into old blocks and at most a new one; the exact condition of success; and that a failure for lack of memory leaves the suffix that fitted prepended. |
| EvBuffers.EvBuffer.PrependBoth | net/libevent/src/buffer.c:1863-1891 | What fits goes in front of the first block, the rest into a new one if there is memory. |
| EvBuffers.EvBuffer.CutFront | net/libevent/src/buffer.c:1125-1151 | The bytes from the cut on, in the remaining blocks. |
| EvBuffers.EvBuffer.Drain | net/libevent/src/buffer.c:1095-1161 | Drops exactly the first len bytes, or all; -1 and no change when frozen and not empty. |
| EvBuffers.EvBuffer.CopyFrom | net/libevent/src/buffer.c:1222-1243 | The bytes from a position on, across blocks. |
| EvBuffers.EvBuffer.CopyoutFrom | net/libevent/src/buffer.c:1184-1249 | The part of the flat bytes from the position, capped at the end; every error case. |
| EvBuffers.EvBuffer.Remove | net/libevent/src/buffer.c:1164-1176 | What is read and what remains is what was there. |
| EvBuffers.EvBuffer.AppendChain | net/libevent/src/buffer.c:883-900 | The other buffer's blocks behind this one's data, bytes joined. |
| EvBuffers.EvBuffer.AddBuffer | net/libevent/src/buffer.c:960-1004 | All bytes and blocks move, in order, and the source is empty; no other memory is taken over; the exact cases in which nothing happens. |
| EvBuffers.EvBuffer.AdvanceLastWithData | net/libevent/src/buffer.c:702-716 | Moves over blocks with data and stops at the first empty one. |
| EvBuffers.EvBuffer.AppendMoved | net/libevent/src/buffer.c:1301-1318 | Whole blocks linked behind the data, last_with_datap on the last of them. |
| EvBuffers.EvBuffer.MoveBlocks | net/libevent/src/buffer.c:1301-1318 | The front of the bytes has moved over; both buffers are valid and share no memory. |
| EvBuffers.EvBuffer.WholeBlocks | net/libevent/src/buffer.c:1287-1299 | Counts exactly the blocks that the first bytes fill, and where last_with_datap is without them. |
| EvBuffers.EvBuffer.MoveFront | net/libevent/src/buffer.c:1287-1337 | The first bytes leave this buffer; exactly which of them reach the other one. |
| EvBuffers.EvBuffer.RemoveBuffer | net/libevent/src/buffer.c:1254-1342 | Move-prefix with no byte reordered, and none lost if and only if malloc succeeds, everything moves, or the partly moved block's bytes fit in the block they then follow; otherwise exactly those bytes are lost. The blocks of both are those of both before, or new. |
| EvBuffers.EvBuffer.Gather | net/libevent/src/buffer.c:1414-1436 | The gathered bytes and the rest are the old bytes. |
| EvBuffers.EvBuffer.PulledLast | net/libevent/src/buffer.c:1440-1447 | Where last_with_datap is after the blocks are gone. |
| EvBuffers.EvBuffer.PullIntoFirst | net/libevent/src/buffer.c:1394-1447 | The first block holds size bytes, the bytes are the same. |
| EvBuffers.EvBuffer.PullIntoNew | net/libevent/src/buffer.c:1402-1447 | A new first block holds size bytes, the bytes are the same; fails exactly without memory. |
| EvBuffers.EvBuffer.Pullup | net/libevent/src/buffer.c:1344-1454 | The identity on the bytes; succeeds if and only if that many bytes exist and they fit in the first block or can be allocated, and they are readable in the first block then. |
| EvBuffers.EvBuffer.ExpandSinglechain | net/libevent/src/buffer.c:1927-2035 | The identity on the bytes, in old blocks or one new one; a returned block at or behind the last data has the room; one is returned whenever malloc succeeds and the size is not near the limit. |
| EvBuffers.EvBuffer.Resize | net/libevent/src/buffer.c:1999-2024 | A larger block with the same data takes the last one's place. |
| EvBuffers.RemoveBufferLosesBytes | net/libevent/src/buffer.c:1322-1337 | A concrete run in which a byte is reported as moved that neither buffer has, because malloc failed. |
| EvRuns.ApartMemory | net/libevent/include/evbuffer-internal.h:86-99 | Two buffers share no memory exactly when all their blocks are apart. |
| EvRuns.CallOne | net/libevent/src/buffer.c:1095-2035 | Each call on one buffer gives the bytes and the output of the call on a byte sequence, in memory the buffer had or that is new. |
| EvRuns.CallBoth | net/libevent/src/buffer.c:961-1342 | The calls that move bytes between two buffers do so on the byte sequences, and the buffers still share no memory. |
| EvRuns.Call | net/libevent/src/buffer.c:961-2035 | Any call on two buffers is the call on two byte sequences. |
| EvRuns.Run | net/libevent/src/buffer.c:961-2035 | Any sequence of add, prepend, drain, copyout, remove, add_buffer, remove_buffer, pullup and expand on two fresh buffers, in either direction, gives the outputs and the bytes of the fold over two byte sequences. |
| EvSearch.ExactUnique | net/libevent/src/buffer.c:2609-2659 | An offset has one position in the blocks. |
| EvSearch.Walk | net/libevent/src/buffer.c:2638-2653 | Walking on from a valid position ends at the unique position that many bytes further, or at the end with the rest. |
| EvSearch.PtrSetTo | net/libevent/src/buffer.c:2609-2659 | Every offset up to the length gets its unique position; every other one, and every overflow, fails. |
| EvSearch.PtrSubtract | net/libevent/src/buffer.c:2589-2607 | The position howfar bytes before, or failure exactly when there is none. |
| EvSearch.FindEolChar | net/libevent/src/buffer.c:1488-1513 | The first CR or LF, in pieces of 128 bytes. |
| EvSearch.FindByte | net/libevent/src/buffer.c:1466-1486 | The first such byte of the flat bytes at or after the position, or none. |
| EvSearch.StrSpn | net/libevent/src/buffer.c:1537-1574 | The longest stretch of the flat bytes in the set. |
| EvSearch.GetChr | net/libevent/src/buffer.c:1577-1587 | The flat byte at the position, or -1 at the end. |
| EvSearch.PtrMemcmp | net/libevent/src/buffer.c:2665-2699 | Equal if and only if the flat bytes match there, across blocks. |
| EvSearch.SearchRange | net/libevent/src/buffer.c:2707-2769 | The least match at or after start that ends by end, or none exists; an empty pattern, and one longer than EV_SSIZE_MAX, gives the start. |
| EvSearch.NextFirst | net/libevent/src/buffer.c:2734-2741 | The memchr of the search loop: nothing matches before the place it gives. |
| EvSearch.SearchEol | net/libevent/src/buffer.c:1589-1677 | In each of the five styles the line end a scan of the flat bytes gives, with its length, or none exists. |
| EvSearch.SearchAny | net/libevent/src/buffer.c:1619-1624 | All the CRs and LFs from the first one on. |
| EvSearch.SearchStrict | net/libevent/src/buffer.c:1625-1631 | The first CR LF, also when split between blocks. |
| EvSearch.SearchCrlf | net/libevent/src/buffer.c:1632-1652 | The first LF, with the CR before it if there is one behind the start, also when split between blocks. |
| EvSearch.ReadLn | net/libevent/src/buffer.c:1679-1716 | The line, the line end and the remaining bytes are the old bytes, and the blocks old ones or new; no line exactly when there is none, frozen or without memory. |
| EvSearch.Find | net/libevent/src/buffer.c:2564-2582 | The least match, readable in one piece in the first block; the blocks are old ones or new. An empty pattern is not found; one longer than EV_SSIZE_MAX is reported at 0 exactly when all data can be made contiguous. |
| HashRuns.StrHash | cocool/co_hash.c:55-66 | The same hash for keys that differ in case only, within 32 bits. |
| HashRuns.RunsOkPut | cocool/co_hash.c:78-97 | Putting an element in front of its bucket's run keeps every bucket one contiguous run of the list of exactly its recorded length. |
| HashRuns.RunsOkCut | cocool/co_hash.c:196-203 | Taking an element out keeps every run. |
| HashRuns.RunsOkEmpty | cocool/co_hash.c:106-140 | Fresh buckets over an empty list are such runs. |
| HashRuns.OnlyInRun | cocool/co_hash.c:147-177 | A scan of the key's bucket alone finds what a scan of the whole list finds. |
| HashRuns.SaysPut | cocool/co_hash.c:72-97 | Adding an element adds its key to the map the list stands for, wherever it goes. |
| HashRuns.SaysCut | cocool/co_hash.c:182-211 | Taking one out removes exactly its key. |
| HashRuns.SaysSet | cocool/co_hash.c:245-253 | Changing the data of one changes exactly its key. |
| SqliteHash.Hash.constructor | cocool/co_hash.c:23-29 | The empty map over no elements. |
| SqliteHash.Hash.LinkIn | cocool/co_hash.c:85-96 | The pointer writes insert the element at its place in the doubly linked list, and nothing else moves. |
| SqliteHash.Hash.SetLinks | cocool/co_hash.c:85-96 | Which links the writes of an insertion change, and to what. |
| SqliteHash.Hash.ClearLinks | cocool/co_hash.c:188-195 | Which links the writes of a removal change, and to what. |
| SqliteHash.Hash.Unlink | cocool/co_hash.c:188-195 | The pointer writes take exactly that element out of the doubly linked list. |
| SqliteHash.Hash.InsertElement | cocool/co_hash.c:72-97 | The element is in front of its bucket's run, or of the list; every bucket stays a run; the stale chain of an empty bucket is not followed. |
| SqliteHash.Hash.TakeOut | cocool/co_hash.c:188-203 | The element is out of list and bucket, and every bucket stays a run. |
| SqliteHash.Hash.CutBucket | cocool/co_hash.c:196-203 | The bucket counts one less and starts at the right element, and the runs of all buckets are those of the shorter list. |
| SqliteHash.Hash.RemoveElement | cocool/co_hash.c:182-211 | The map without the key; the table is released with the last element. |
| SqliteHash.Hash.FindElement | cocool/co_hash.c:147-177 | The element with the key up to case, or none in the whole list; and the key's bucket. |
| SqliteHash.Hash.Find | cocool/co_hash.c:217-221 | What the map holds for the key up to case, 0 if nothing. |
| SqliteHash.Hash.NewTable | cocool/co_hash.c:130-133 | Empty buckets over an empty list. |
| SqliteHash.Hash.Reinsert | cocool/co_hash.c:134-138 | The walk over the old list, whose links it overwrites as it goes, reinserts every element once and keeps the map. |
| SqliteHash.Hash.Rehash | cocool/co_hash.c:106-140 | The map stays; exactly when the table is replaced, and its size; otherwise nothing changes. |
| SqliteHash.Hash.Insert | cocool/co_hash.c:237-269 | Insert, replace, delete and failed allocation: the result and the new map in every case, a load of at most two when rehashing succeeds, and elements and table that are the old ones or new. |
| SqliteHash.Hash.InsertNew | cocool/co_hash.c:256-268 | One key more, whether the table grew or not. |
| SqliteHash.Hash.Replace | cocool/co_hash.c:249-252 | Exactly that key has new data. |
| SqliteHash.Hash.Clear | cocool/co_hash.c:35-50 | The empty map, without a table. |
| SqliteHash.Hash.MakeRoom | cocool/co_hash.c:260-265 | The table grows when it should, with the map as it was. |
| SqliteHash.Perform | cocool/co_hash.c:35-269 | Each call is the call on the map, in memory the table had or that is new. |
| SqliteHash.Run | cocool/co_hash.c:23-269 | Any run of inserts, replacements, deletes, lookups and resets on a fresh table, with whatever allocations fail, gives the results and the map of the run on a map. |
| HtTable.PushFront | net/libevent/include/ht-internal.h:178-180 | The element is first in its chain, every other chain is as before. |
| HtTable.TakeOut | net/libevent/include/ht-internal.h:214-216 | Writing through the link that leads to it takes exactly that element out. |
| HtGrow.MoveElem | net/libevent/include/ht-internal.h:363-365 | The element leaves its chain and is first in the other one; the set of elements stays. |
| HtGrow.SweptShifted | net/libevent/include/ht-internal.h:356-368 | An element moved to another bucket, also one that the sweep will meet again, disturbs nothing that was swept. |
| HtGrow.SweepBucket | net/libevent/include/ht-internal.h:356-368 | One bucket of the in-place sweep ends with only elements that belong there; no element is lost; it terminates. |
| HtGrow.RefillBucket | net/libevent/include/ht-internal.h:335-346 | One old chain, walked while its links are overwritten, is emptied into the new table. |
| HtGrow.RefillAll | net/libevent/include/ht-internal.h:335-346 | The new table holds exactly the elements of the old one, each in the bucket of its hash. |
| HtHash.HashTable.constructor | net/libevent/include/ht-internal.h:133-140 | The empty table, without buckets. |
| HtHash.HashTable.PickSize | net/libevent/include/ht-internal.h:326-331 | The first prime behind the current one whose load limit exceeds the size; and exactly when the loop reads behind its table instead. |
| HtHash.HashTable.NoPrimeIsEnough | net/libevent/include/ht-internal.h:327-331 | Behind a current prime that is not the last the size loop finds one in its table if and only if the size is below the last prime's limit. |
| HtHash.HashTable.GrowByCopy | net/libevent/include/ht-internal.h:332-349 | The first rehash path: in a table of its own the same elements, each in bucket hash mod the new length, and the new limit. |
| HtHash.HashTable.GrowInPlace | net/libevent/include/ht-internal.h:350-370 | The second path, within the reallocated table: the same elements, each in the bucket of its hash. |
| HtHash.HashTable.Grow | net/libevent/include/ht-internal.h:317-375 | Same elements, valid table, old or new, and on success room for the size unless the last prime is in use already; fails exactly when it has to grow and both allocations fail. For every size the size loop can handle, and for every size when it is at the last prime. |
| HtHash.HashTable.Insert | net/libevent/include/ht-internal.h:171-181 | Exactly one element more, and the load limit holds if the table could grow; the table is the old one or new. |
| HtHash.HashTable.FindP | net/libevent/include/ht-internal.h:144-156 | The link to the element with the key, or to the end of the chain when no element of the whole table has it. |
| HtHash.HashTable.InItsBucket | net/libevent/include/ht-internal.h:121-122 | Every element is in the bucket of its hash. |
| HtHash.HashTable.Find | net/libevent/include/ht-internal.h:160-167 | An element with the key, or none exists. |
| HtHash.HashTable.Remove | net/libevent/include/ht-internal.h:207-219 | Exactly the element with the key is gone, or none has it and nothing changes. |
| HtHash.HashTable.FirstFrom | net/libevent/include/ht-internal.h:253-259 | The first chain from b on that is not empty. |
| HtHash.HashTable.Next | net/libevent/include/ht-internal.h:267-280 | The element after e in the table's order, or the end. |
| HtHash.HashTable.VisitAll | net/libevent/include/ht-internal.h:124-127 | HT_START and HT_NEXT visit every element exactly once. |
| HtHash.HashTable.RepIsBad | net/libevent/include/ht-internal.h:388-420 | Zero if and only if the representation is in order. |
| HtHash.HashTable.ValidIsOk | net/libevent/include/ht-internal.h:388-420 | Every valid table that is not over its limit passes the check. |
| HtHash.HoldsMore | net/libevent/include/ht-internal.h:171-181 | An element with a new key adds exactly that key. |
| HtHash.HoldsLess | net/libevent/include/ht-internal.h:207-219 | Taking the only element with a key out removes exactly that key. |
| HtHash.Perform | net/libevent/include/ht-internal.h:160-219 | One insertion, removal or lookup by key is the one on the set of keys, in memory the table had or that is new. |
| HtHash.Run | net/libevent/include/ht-internal.h:124-219 | Any run of them, whichever way the table grows, gives the results and the keys of the run on a set, as long as no insertion meets as many keys as the limit of the last prime. |
| TokenBucket.RefillIsCappedSum | net/libevent/src/bufferevent_ratelim.c:94-104 | The unsigned subtraction and division neither wrap nor round wrongly: a refill is min(maximum, limit + n * rate). |
| TokenBucket.RefillCaps | net/libevent/src/bufferevent_ratelim.c:94-104 | A refill stays within the maximum if and only if the limit was within it: a limit above the maximum is not capped. |
| TokenBucket.RefillGrows | net/libevent/src/bufferevent_ratelim.c:94-104 | Such a limit grows by n * rate. |
| TokenBucket.Bucket.Init | net/libevent/src/bufferevent_ratelim.c:49-71 | A fresh bucket holds one tick's rate; a reinitialized one keeps what fits under the new maximum. |
| TokenBucket.Bucket.Update | net/libevent/src/bufferevent_ratelim.c:73-111 | For any limits in their words: both are refilled by the ticks counted; a wrapped or backward clock changes nothing. |
| TokenBucket.Bucket.UpdateFitting | net/libevent/src/bufferevent_ratelim.c:73-111 | For limits that do not exceed the maxima both become the capped sums. |
| TokenBucket.CountsNoMore | net/libevent/src/bufferevent_ratelim.c:80-88 | However often the 32-bit tick number wrapped, an update counts at most the true ticks since the last one that was tried. |
| TokenBucket.StepKeeps | net/libevent/src/bufferevent_ratelim.c:197-308 | A transfer of at most what was allowed keeps the limit between 0 and the maximum. |
| TokenBucket.SpendsWithin | net/libevent/src/bufferevent_ratelim.c:197-308 | From an update on, any run spends at most the limit and the true ticks times the rate. |
| TokenBucket.WindowConforms | net/libevent/src/bufferevent_ratelim.c:197-308 | In every window of every run at most maximum + T * rate bytes are spent, T being the true ticks of the window. |
| TokenBucket.RunMore | net/libevent/src/bufferevent_ratelim.c:197-308 | A run extended by one step that may be made is a run, and ends where the step leads. |
| RateLimit.Bufferevent.SuspendRead | net/libevent/src/bufferevent.c:66-76 | The reason is added; reading is on exactly when enabled and no reason remains. |
| RateLimit.Bufferevent.UnsuspendRead | net/libevent/src/bufferevent.c:78-88 | The reason is removed, with the same equivalence. |
| RateLimit.Bufferevent.SuspendWrite | net/libevent/src/bufferevent.c:90-100 | The same for writing. |
| RateLimit.Bufferevent.UnsuspendWrite | net/libevent/src/bufferevent.c:102-112 | The same for writing. |
| RateLimit.Bufferevent.UpdateBuckets | net/libevent/src/bufferevent_ratelim.c:113-119 | Both limits become the capped sums up to now; no wake-up is lost. |
| RateLimit.Bufferevent.GetRlimMax | net/libevent/src/bufferevent_ratelim.c:197-258 | The limit of the side asked for after both have been refilled, never negative; without a configuration the size of a single transfer. |
| RateLimit.Bufferevent.DecrementReadBuckets | net/libevent/src/bufferevent_ratelim.c:272-308 | For any number of bytes, also a negative one: the limit is lowered by it, reading is suspended for bandwidth exactly when the limit is used up, and the refill timer is pending then; the invariant is kept if and only if the limit does not come to exceed the maximum. |
| RateLimit.Bufferevent.DecrementWriteBuckets | net/libevent/src/bufferevent_ratelim.c:310-346 | The same for writing. |
| RateLimit.Bufferevent.ReadStep | net/libevent/src/bufferevent_ratelim.c:197-308 | One read of the real object is one step of the read side and one of the write side that spends nothing; it takes what is wanted or what is allowed, whichever is less. |
| RateLimit.Bufferevent.WriteStep | net/libevent/src/bufferevent_ratelim.c:197-346 | The same for a write. |
| RateLimit.Bufferevent.FireStep | net/libevent/src/bufferevent_ratelim.c:393-439 | A firing of the timer is a step of both sides that spends nothing. |
| RateLimit.Bufferevent.DecrementReadLimit | net/libevent/src/bufferevent_ratelim.c:971-996 | Taking or giving back bytes keeps the protocol if and only if the limit does not come to exceed the maximum. |
| RateLimit.Bufferevent.RefillCallback | net/libevent/src/bufferevent_ratelim.c:393-439 | After a firing each side is suspended exactly when its limit is still used up, and the timer is pending exactly when one is. |
| RateLimit.Bufferevent.SetRateLimit | net/libevent/src/bufferevent_ratelim.c:559-636 | The limits in each case (first, other, same or no configuration), the suspensions that go with them, and no other reason touched. |
| RateLimit.Bufferevent.FireUntilClear | net/libevent/src/bufferevent_ratelim.c:393-439 | With firings at least a tick apart, as many as the debt divided by the rate asks for, both suspensions end. |
| RateLimit.Perform | net/libevent/src/bufferevent_ratelim.c:197-439 | One read, write or firing of the timer is a step of both sides, or does nothing because the side is off or no timer is pending. |
| RateLimit.Run | net/libevent/src/bufferevent_ratelim.c:197-439 | Any run of reads, writes and firings in whatever order takes both sides of the real object through the runs of the conformance theorem; so in every window neither direction spends more than maximum + T * rate. |
| RateLimit.RunConforms | net/libevent/src/bufferevent_ratelim.c:197-439 | Every window of such a run conforms. |
| RateLimit.FollowsOn | net/libevent/src/bufferevent_ratelim.c:197-439 | A side that has followed a run and makes a step that it may make has followed the longer run. |
| RateLimit.GivingBackOverfills | net/libevent/src/bufferevent_ratelim.c:273-308 | A run in which bytes are given back after a refill: at one byte a tick and at most one in all, the read limit comes to three. |
| MinHeap.ClimbKeeps | net/libevent/include/minheap-internal.h:161-171 | Moving an event over its parent leaves only its new place open. |
| MinHeap.SinkKeeps | net/libevent/include/minheap-internal.h:173-186 | Moving an event under its smaller child leaves only its new place open. |
| MinHeap.Settled | net/libevent/include/minheap-internal.h:180-185 | An event that fits its place closes the last open one. |
| MinHeap.OrderedCut | net/libevent/include/minheap-internal.h:96-115 | With the last event in the erased one's place only that place is open. |
| MinHeap.ChildrenAfter | net/libevent/include/minheap-internal.h:102-109 | An event before its parent is before its children: it never needs to go both ways. |
| MinHeap.TopIsLeast | net/libevent/include/minheap-internal.h:69 | No event is before the one at the top. |
| MinHeap.Heap.ShiftUp | net/libevent/include/minheap-internal.h:161-171 | Heap order, slots and back indices restored, with the same events. |
| MinHeap.Heap.ShiftUpUnconditional | net/libevent/include/minheap-internal.h:149-159 | The same for an event known to be before its parent. |
| MinHeap.Heap.ShiftDown | net/libevent/include/minheap-internal.h:173-186 | The same downwards. |
| MinHeap.Heap.SmallerChild | net/libevent/include/minheap-internal.h:175-178 | The child with the smaller timeout, the left one if there is no other. |
| MinHeap.Heap.Reserve | net/libevent/include/minheap-internal.h:133-147 | Room for the size, doubling from 8, with the heap as it was; failure changes nothing. |
| MinHeap.Heap.Push | net/libevent/include/minheap-internal.h:71-77 | Exactly the event more, in the old array or a new one, or nothing at all without memory. |
| MinHeap.Heap.Pop | net/libevent/include/minheap-internal.h:79-89 | The event with the least timeout is out, its index -1, the others stay. |
| MinHeap.Heap.Erase | net/libevent/include/minheap-internal.h:96-115 | Any event, also the last one, is out with index -1, or was not in and nothing changes. |
| MinHeap.Heap.Adjust | net/libevent/include/minheap-internal.h:117-131 | With one timeout changed the heap is valid again with the same events; an event outside is pushed, if there is memory. |
| MinHeap.Heap.OneMoved | net/libevent/include/minheap-internal.h:117-131 | A new timeout of one event of a valid heap leaves only the place of that event open, which is all that adjusting asks for. |
| MinHeap.Heap.Reschedule | net/libevent/src/event.c:3239-3276 | Giving any event a new timeout and adjusting keeps the heap valid with the same events, and that one. |
| MinHeap.Heap.PopAll | net/libevent/include/minheap-internal.h:79-89 | Repeated pops give all events in order of timeout. |
| MinHeap.OneMore | net/libevent/include/minheap-internal.h:71-131 | A call that may be made after a run extends the run. |
| MinHeap.Perform | net/libevent/include/minheap-internal.h:71-131 | One call gives an output that the call on a map from events to timeouts may give, a pop one of the earliest, and leaves the events of that map. |
| MinHeap.Run | net/libevent/include/minheap-internal.h:71-131 | Any run of pushes, pops, erasures and new timeouts does. |
| TagCodec.NumberOf | net/libevent/src/event_tagging.c:338-345 | Reading the nibbles from the last one down gives the number shifted right by those not read yet. |
| TagCodec.FirstNibble | net/libevent/src/event_tagging.c:131-135 | The first nibble tells how many follow, also for zero. |
| TagCodec.IntRoundTrip | net/libevent/src/event_tagging.c:117-138 | Decoding inverts encoding for every 32- and 64-bit integer, whatever follows. |
| TagCodec.TagRoundTrip | net/libevent/src/event_tagging.c:173-242 | Decoding inverts encoding for every 32-bit tag, whatever follows. |
| TagCodec.TagFits | net/libevent/src/event_tagging.c:214-230 | The overflow tests of the decoder never fire on the encoding of a 32-bit tag. |
| TagBuffer.EncodeIntInternal | net/libevent/src/event_tagging.c:117-138 | The loop over zeroed bytes computes the encoding, for both widths. |
| TagBuffer.EncodeTagData | net/libevent/src/event_tagging.c:179-188 | The loop computes the encoding, in at most five bytes. |
| TagBuffer.EncodeTag | net/libevent/src/event_tagging.c:173-194 | The encoded tag is behind the buffer's bytes, or nothing is; exactly when, and what room is left. |
| TagBuffer.EncodeInt | net/libevent/src/event_tagging.c:152-166 | The encoded integer is behind the buffer's bytes, or nothing is; exactly when, and what room is left. |
| TagBuffer.Marshal | net/libevent/src/event_tagging.c:256-263 | Tag, length and payload are each written or not, each exactly when the room that the ones before it left, or memory, suffices (PartsOf of the state before); the bytes are then just those parts, and a whole record if all three are written. |
| TagBuffer.MarshalInt | net/libevent/src/event_tagging.c:276-297 | The same for an integer record. |
| TagBuffer.WrittenWithMemory | net/libevent/src/event_tagging.c:256-263 | Unless the total size overflows, each part that there is memory for is written. |
| TagBuffer.MarshalTears | net/libevent/src/event_tagging.c:256-263 | A run in which memory fails for the tag only: length and payload are written, and read as a tag of their own. |
| TagBuffer.FromIsAbove | net/libevent/src/event_tagging.c:214-230 | Accumulating the groups upwards gives the same number as the recursive definition. |
| TagBuffer.DecodeTagData | net/libevent/src/event_tagging.c:214-233 | The loop computes the decoding for every input; and exactly when it reads behind the five bytes it asked for: five bytes announce a sixth and the block has no more. |
| TagBuffer.PeekTag | net/libevent/src/event_tagging.c:395-399 | The decoded tag, with the bytes as they were; and exactly when the sixth byte is read behind the data of the first block. |
| TagBuffer.DecodeTag | net/libevent/src/event_tagging.c:196-248 | The decoded tag, and exactly its bytes gone if draining; an error changes nothing. |
| TagBuffer.DecodeIntData | net/libevent/src/event_tagging.c:338-345 | The loop computes the number. |
| TagBuffer.DecodeIntAt | net/libevent/src/event_tagging.c:315-350 | The integer at the offset, which fits its word, or -1, for every input; nothing is drained. |
| TagBuffer.DecodeInt | net/libevent/src/event_tagging.c:375-393 | The integer, and exactly its bytes gone. |
| TagBuffer.HeadRoundTrip | net/libevent/src/event_tagging.c:437-451 | The header read from an encoded record is its tag and length, and payload and rest are where it says. |
| TagBuffer.UnmarshalHeader | net/libevent/src/event_tagging.c:437-451 | Tag, length as an int and the bytes gone, in every case; -1 when the payload is not all there. |
| TagBuffer.Consume | net/libevent/src/event_tagging.c:453-462 | The result and the bytes gone in every case of tag, length and payload. |
| TagBuffer.DropsPayload | net/libevent/src/event_tagging.c:453-462 | What evtag_consume drops is the payload if that is shorter than 2^31; a longer one takes everything behind it with it. |
| TagBuffer.PeekLength | net/libevent/src/event_tagging.c:401-417 | Header and payload size modulo 2^32: below 2^31 the number of bytes evtag_consume drops. |
| TagBuffer.Unmarshal | net/libevent/src/event_tagging.c:466-480 | Exactly the payload moves to the other buffer, in every case of header and length. |
| TagBuffer.UnmarshalAll | net/libevent/src/event_tagging.c:466-480 | Unmarshalling concatenated records gives the list back and leaves exactly what follows. |
| TagBuffer.UnmarshalInt | net/libevent/src/event_tagging.c:484-534 | Result, number and the bytes gone, in every case of tag, length and integer. |
| TagBuffer.TakeInt | net/libevent/src/event_tagging.c:498-508 | The payload is drained as a whole; an integer longer than it is an error. |
| TagBuffer.AfterTagRoundTrip | net/libevent/src/event_tagging.c:484-534 | Length and integer of an encoded record come back. |
| TagBuffer.IntRecordRoundTrip | net/libevent/src/event_tagging.c:276-297 | Unmarshalling a marshalled 32- or 64-bit integer gives it back and leaves exactly what follows. |
| Arc4Random.SwapPerm | net/libevent/src/arc4random.c:430-435 | A swap keeps a permutation and undoes itself. |
| Arc4Random.PermIsOnto | net/libevent/src/arc4random.c:96-105 | Every byte value occurs in the state. |
| Arc4Random.StepIsReversible | net/libevent/src/arc4random.c:425-437 | Each output step can be undone. |
| Arc4Random.StatesStayApart | net/libevent/src/arc4random.c:425-437 | Two different states never meet. |
| Arc4Random.MixedKeeps | net/libevent/src/arc4random.c:114-120 | Mixing n bytes of seed moves i on by n and keeps the state a permutation. |
| Arc4Random.StirredEnds | net/libevent/src/arc4random.c:107-122 | After seeding with any data the state is a permutation and both indices are one before where i was. |
| Arc4Random.TailFits | net/libevent/src/arc4random.c:439-450 | n bytes behind w stay below (w + 1) * 256^n. |
| Arc4Random.Arc4.Init | net/libevent/src/arc4random.c:96-105 | The identity permutation. |
| Arc4Random.Arc4.AddStep | net/libevent/src/arc4random.c:114-120 | The state mixed with one byte of the data, which repeats. |
| Arc4Random.Arc4.AddRandom | net/libevent/src/arc4random.c:107-122 | The state stirred with the data; a permutation always. |
| Arc4Random.Arc4.AddAllRandom | net/libevent/src/arc4random.c:466-480 | Stirred once for every 256 bytes of the data. |
| Arc4Random.Arc4.GetByte | net/libevent/src/arc4random.c:425-437 | The next byte of the stream, with the state a permutation again. |
| Arc4Random.Arc4.GetWord | net/libevent/src/arc4random.c:439-450 | The next four bytes, the first one most significant, below 2^32. |
| Arc4Random.OneMoreWord | net/libevent/src/arc4random.c:439-450 | The next word of a state is one word more of the stream that led there. |
| Arc4Random.Arc4.Discard | net/libevent/src/arc4random.c:404-405 | The state that many bytes on. |
| Arc4Random.MinIsRemainder | net/libevent/src/arc4random.c:525-540 | The 32-bit computation of min is 2^32 mod bound, and rejects less than half of all words. |
| Arc4Random.Arc4.Uniform | net/libevent/src/arc4random.c:523-555 | Of the words that the generator yields from its state, all but the last are below 2^32 mod bound and the last is not, and it is what is reduced; or all that were tried are below. The state is the one after these words. |
| Arc4Random.EveryResultEquallyLikely | net/libevent/src/arc4random.c:523-555 | Each result below bound has exactly floor(2^32 / bound) accepted words. |
| Arc4Random.Window | net/libevent/src/arc4random.c:514-521 | Among q * b consecutive numbers each remainder occurs q times. |
| EvdnsRing.Insert | net/libevent/src/evdns.c:2720-2734 | The pointer writes append the request to the circle. |
| EvdnsRing.Remove | net/libevent/src/evdns.c:2682-2717 | The pointer writes take exactly that request out, and the head moves on if it was the head. |
| EvdnsRing.FindFromTransId | net/libevent/src/evdns.c:468-483 | The walk around the circle from its head ends, and finds the first request with the id or none has it. |
| Resolver.WithoutFacts | net/libevent/src/evdns.c:2682-2717 | On sequences: one request less, the others all there. |
| Resolver.FreeBelow | net/libevent/src/evdns.c:1317-1329 | Fewer than n ids in use leave one below n free, so the random loop can end. |
| Resolver.Base.constructor | net/libevent/src/evdns.c:3899-3933 | The empty base keeps the invariant. |
| Resolver.Base.Pick | net/libevent/src/evdns.c:1334-1367 | The first live server around the circle from the head, which moves behind it, whenever one is up; a server whenever there is one at all. |
| Resolver.Base.AllDown | net/libevent/src/evdns.c:1356-1361 | A whole round without a live server means that the count of good ones is zero, as the assertion there says. |
| Resolver.Base.SwapNs | net/libevent/src/evdns.c:544-553 | The request is counted with the other server, and each server's count is right. |
| Resolver.Base.Failed | net/libevent/src/evdns.c:557-615 | Invariant kept; the server is down; its requests that were never sent are with live servers if there are any, and every other request is where it was. |
| Resolver.Base.MoveUnsent | net/libevent/src/evdns.c:606-610 | One such request moves to a live server. |
| Resolver.Base.Up | net/libevent/src/evdns.c:617-636 | Invariant kept; the server is up; of all requests exactly the recorded probe of a server that was down is gone, if it is still under way, and no longer recorded. |
| Resolver.Base.Cancel | net/libevent/src/evdns.c:2844-2880 | Invariant kept; a request in a list is out of it, one that is finished already changes nothing. |
| Resolver.Base.ActiveIff | net/libevent/src/evdns.c:2848-2850 | A handle leads to a request exactly while it is in flight or waits. |
| Resolver.Base.Transmit | net/libevent/src/evdns.c:2237-2286 | Invariant kept whatever sendto does; the try is counted, or the request stays marked at a choked server. |
| Resolver.Base.SendTo | net/libevent/src/evdns.c:2204-2229 | Only a failure that is final takes a server down. |
| Resolver.Base.TransmitAll | net/libevent/src/evdns.c:2344-2366 | Every marked request is tried exactly once, the others are left alone, and the result says whether there was one. |
| Resolver.Base.FindFromTransId | net/libevent/src/evdns.c:468-483 | The request in flight with the id, in its one bucket, or none has it. |
| Resolver.Base.UsedIds | net/libevent/src/evdns.c:468-483 | Looking in one bucket decides whether an id is in use anywhere. |
| Resolver.Base.TransactionIdPick | net/libevent/src/evdns.c:1317-1329 | An id below 0xffff that no request in flight has. |
| Resolver.Base.File | net/libevent/src/evdns.c:2831 | The request is in the bucket of its id, and all others still are in theirs. |
| Resolver.Base.Unfile | net/libevent/src/evdns.c:655-656 | The request is out of its bucket, and all others still are in theirs. |
| Resolver.Base.Launch | net/libevent/src/evdns.c:2828-2834 | Invariant kept; one request more in flight, counted with its server. |
| Resolver.Base.Land | net/libevent/src/evdns.c:655-662 | Invariant kept; one request less in flight and with its server. |
| Resolver.Base.Enqueue | net/libevent/src/evdns.c:2837-2840 | Invariant kept; last of those that wait. |
| Resolver.Base.Dequeue | net/libevent/src/evdns.c:759-761 | Invariant kept; exactly that one no longer waits. |
| Resolver.Base.Pump | net/libevent/src/evdns.c:742-770 | Invariant kept; afterwards nothing waits while there is room and a server; no request is lost; it terminates. |
| Resolver.Base.PumpNext | net/libevent/src/evdns.c:742-770 | One turn: a request goes into flight, or there is no server. |
| Resolver.Base.PumpOne | net/libevent/src/evdns.c:752-768 | One request moves from waiting into flight. |
| Resolver.Base.Promote | net/libevent/src/evdns.c:752-766 | It gets a server and an id no other has. |
| Resolver.Base.Submit | net/libevent/src/evdns.c:2746-2841 | Invariant kept; into flight exactly when there is room and a server, else last in the queue; no other request moves. |
| Resolver.Base.Finish | net/libevent/src/evdns.c:648-706 | Invariant kept; exactly that request is gone, and the queue was pumped. |
| Resolver.Base.Drop | net/libevent/src/evdns.c:655-665 | Exactly that request is out of the one list it was in, and out of the counts. |
| Resolver.Base.OneList | net/libevent/src/evdns.c:2869-2875 | A request waits exactly when it has no server, so telling its list by its server is right. |
| Resolver.Base.Reissue | net/libevent/src/evdns.c:714-735 | Invariant kept; says exactly whether another server got the request, which it does when its own was down and one is up. |
| Resolver.Base.Timeout | net/libevent/src/evdns.c:2160-2196 | Invariant kept; after the last retransmission the request is gone and its server down, before that it was tried again. |
| Resolver.Base.CountTimeout | net/libevent/src/evdns.c:2188-2192 | The server's timeouts are counted; one too many takes it down and starts the count again. |
| Resolver.Base.BadServerReply | net/libevent/src/evdns.c:897-907 | Invariant kept; the request is with another server, at most max-reissues times, or gone. |
| Resolver.Base.TryAnother | net/libevent/src/evdns.c:904-905 | The server is down, and the request with a live one if there is any. |
| Resolver.Base.GoodServerReply | net/libevent/src/evdns.c:949-956 | Invariant kept; exactly the request is gone and with it the recorded probe of a server that was down; the probe that is answered itself is not cancelled. |
| Resolver.Base.SendProbe | net/libevent/src/evdns.c:2314-2339 | Invariant kept; the probe is in flight even when there is no room, and recorded with its server. |
| Resolver.Base.ProbeEnded | net/libevent/src/evdns.c:2288-2312 | Invariant kept and no request gone; the server is up after a good answer, has one failure more after a bad one, and is as it was after a cancellation. |
| Resolver.Base.SetMaxInflight | net/libevent/src/evdns.c:3385-3414 | Invariant kept, so every request stays in flight and is found by its id in the new buckets; failure changes nothing. |
| Resolver.Base.SetOptionMaxInflight | net/libevent/src/evdns.c:3478-3484 | For any number that was read: the maximum is it, brought to 1 to 65000; nothing changes without a number, when such options are not wanted, or without memory. |
| Resolver.Base.SetHeads | net/libevent/src/evdns.c:3402-3412 | With all requests in new buckets the invariant holds for the new maximum. |
| Resolver.Base.RefileOne | net/libevent/src/evdns.c:3402-3406 | One request more is in its new bucket. |

## Left out

- EvBuffers.EvBuffer.ExpandSinglechain: when malloc fails, or for sizes near EVBUFFER_CHAIN_MAX, it does not say whether a block is returned, only that a returned one has the room.
- EvBuffers.EvBuffer.AddBuffer: two buffers whose lengths together exceed EV_SIZE_MAX are excluded, as no address space holds both; the same for RemoveBuffer and TagBuffer.Unmarshal.
- EvSearch.Find: a match that cannot be made contiguous for lack of memory is reported as none.
- TagBuffer.Unmarshal: the allocations of evbuffer_pullup and evbuffer_add succeed; the same for the other readers (PeekTag, DecodeTag, DecodeIntAt, DecodeInt, UnmarshalHeader, Consume, PeekLength, UnmarshalInt).
- HtHash.HashTable.Insert: when the table has to grow, for sizes with which the size loop stays in its table (CanGrow), and with memory for the first table, which the code needs too.
- HtHash.Run: no insertion when there are as many keys as the last prime's load limit, or one less, so that the size loop stays in its table whatever allocations fail.
- HtHash.HashTable.RepIsBad: for a table whose chains are linked as they should be; on others the check itself may not end.
- RateLimit.Bufferevent.RefillCallback: the protocol is kept when adding the timer event succeeds; a failure leaves the limits as stated.
- RateLimit.Run: the timer event can always be added, no byte is given back, and the configuration stays; what each operation does otherwise is in its own contract.
- TokenBucket.WindowConforms: one configuration and no group.
- RateLimit.Bufferevent.DecrementReadLimit: bufferevent_decrement_write_limit, the same code with the write fields, is left out.
- Arc4Random.Arc4.Uniform: the loop without a bound tries a given number of words, and says when none of them ends it; no seeding in between.
- Resolver.Base.TransactionIdPick: the random loop is its outcome, any free id, given fewer than 65535 requests in flight.
- Resolver.Base.SetMaxInflight: at most 65000, to which its only caller with user input clips (SetOptionMaxInflight); requests that wait are not pumped, as in the code.
- Resolver.Base.BadServerReply: replies with SERVERFAILED are Timeout, as in the code.
- EventMap.EventBase.IoAdd: the debug-mode test for mixed edge triggering is off.
- EvRuns.Run: malloc succeeds; what each call does without memory is in its own contract.
- DnsCodec.LabelTable.Add: a failing mm_strdup, which leaves the table as it was, and the result code, which the only caller ignores.
- Red-black tree: rb_destroy frees the nodes of a subtree and keeps nothing to state.
- evbuffer: pinned, reference, multicast and immutable blocks, file segments, callbacks, reserve/commit and prepend_buffer.
- DNS: request and reply parsing around the names, search lists, hosts and resolv.conf, getaddrinfo, timers, handles, disable_when_inactive, and clear_nameservers_and_suspend.
- Resolver.Base.FindFromTransId: walks a sequence, and so do TransmitAll and Failed; that insertion, removal and the walk on the linked circles are those on sequences is proved in EvdnsRing, on nodes of its own.
- epoll_wait, signals and timerfd.
- Hash tables: HT_REPLACE, HT_FOREACH_FN, HT_NEXT_RMV and HT_CLEAR; floating-point load factors are fractions; counts are unbounded.
- Rate limiter: groups.
- Tagged records: strings, timevals, fixed-size payloads and whole buffers as payloads, which only wrap the records here.
- arc4random: gathering of seed data, locks and reseeding.
- The object runtime in cocool (classes, dictionaries, memory pool, messages, threads, sockets) and its disabled heap.
