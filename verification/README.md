# NetVirt: models and proofs

NetVirt connects machines by virtual layer-2 networks. A switch relays Ethernet frames between the
sessions of a network; a controller keeps networks, nodes and their addresses in a database; both
exchange ASN.1 messages. This project models the data structures, state machines and codecs under
that, and proves what they keep.

`dafny verify dfyconfig.toml` checks everything.

## What is modelled

- **Trees** (`RedBlack`, `RbTree`, `RbInsert`, `RbRemoveColor`, `RbRemove`, `RbWalk`, `Splay`, `SplayOps`,
  `Order`). Entries with left, right and parent pointers and a colour, rewritten in place. A ghost tree is
  held against the heap; a place in it is a context and a subtree, so that a rotation is local and the
  whole follows. An entry carries its key; the comparison is a parameter.
- **Networks by uuid and id** (`VnetworkIndex`): two red-black trees over the same records.
- **The switch** (`Bits`, `Linkst`, `NetworkSpec`, `Vnetwork`, `SwitchRuns`, `SwitchHistory`). `Vnetwork` has the
  handlers on the heap: a doubly linked session list, a bitmap of ids, a growing triangular matrix, the tables. Each is
  proved equal to an operation on values in `NetworkSpec`; `SwitchRuns` makes a step machine of these and
  proves statements over whole runs; `SwitchHistory` says what its state is, in terms of the events before.
- **The hash table** (`HashTable`): chains with heads, their nodes and the traversal markers, refining a finite map.
- **Addresses** (`IpPool`, `Controller`): arithmetic on byte-swapped words, the bitmap of addresses in use,
  and the controller's requests as sequences of database calls each of which may fail.
- **Codecs** (`Octets`, `IntegerCodec`, `Strtol`, `IntegerParser`, `IntegerText`, `OctetString`, `XerBuffer`, `XerHex`,
  `XerBinary`, `XerEntities`): INTEGER, OCTET STRING and BIT STRING between values, contents octets and XML text.
  `long` has 64 bits.

## Where the code falls short

Each of these is stated with the exact condition under which it happens, and shown on an input or a run.

- `vnetwork_add_session` ignores that the pool is full; the newcomer then shares id 1
  (`NetworkSpec.AddKeepsExactly`, on a run: `SwitchRuns.OverfullBreaks`).
- Disconnecting a session that waits for step-up empties the session list (`SwitchRuns.DisconnectExactly`);
  deleting a network leaves such a session with a network that is gone (`SwitchRuns.DelNetExactly`; on runs:
  `SwitchRuns.WaitingBreaks`).
- `vnetwork_create` with a new uuid and a known id, or the other way round, lets the two trees part. A network
  without an id is created under the empty one, so the second such network does it (`VnetworkIndex.Run`,
  `VnetworkIndex.TwoWithoutId`).
- A deletion of a node that the database refuses is not noticed (`nvctrler/src/dao.c:848-858` does not look at the
  status), and its address is released while the node is still stored; a pool write that fails after a node was
  stored gives its address away again (`Controller.NextKeepsExactly`, on runs: `Controller.RunsThatShare`).
- `ipcalc` counts hosts below zero for the prefixes 31 and 32 (`IpPool.CalcWraps`).
- `asn_strtol_lim` overflows on a negative number with a digit after LONG_MIN (`Strtol.DigitAfterMinimum`).
- An unsigned INTEGER above LONG_MAX is printed in decimal and refused when read back
  (`IntegerText.DumpReadsBackExactly`, `IntegerText.TopNotReadBack`).
- NativeInteger does not return an unsigned value whose top nine bits are all ones (`IntegerCodec.NativeUnsigned`).
- `BIT_STRING_encode_xer` writes the line break before the last octet ahead of the row it has not flushed yet
  (`XerBinary.LaidExactly`, `XerBinary.NineOctets`); the bits stay in order (`XerBinary.PrintedBitsRead`).

## Assumptions about the surroundings

- Allocation succeeds; messages handed to a connection are sent; a step-up is an event with the peer's node uuid.
- The switch runs add nobody to a full network, disconnect no session that has a network and is not on its list,
  and delete no network with such a session (`SwitchRuns.Enabled`); the server never runs unsecured.
- A database call that fails has no effect; the name given to a new network is not that of a stored node.

## Model

| member | source | states |
|---|---|---|
| RbTree.RbHead.RotateLeft | nvswitch/src/tree.h:335-353 | Rotating under an element re-links child, parent and root pointers so that the heap spells out exactly the rotated tree in the same place of the whole tree |
| RbTree.RbHead.RotateRight | nvswitch/src/tree.h:355-373 | The mirror image |
| RbInsert.InsertColor | nvswitch/src/tree.h:400-442 | The fix-up loop ends, keeps the in-order sequence and turns a tree whose only flaw is a red element under a red parent into a red-black tree |
| RbInsert.Insert | nvswitch/src/tree.h:588-616 | With an equal key present that element is returned and nothing changes, an element of the tree being itself returned; otherwise exactly the new element joins the ascending sequence, and all colour and parent-link rules hold again |
| RbRemoveColor.RemoveColor | nvswitch/src/tree.h:444-518 | A subtree one black short is repaired: the loop ends, the order is kept, and all red-black rules hold, whatever the sibling's colours |
| RbRemoveColor.AbsorbedLeft | nvswitch/src/tree.h:444-518 | On values: with a red far nephew one rotation and three colours pay the missing black node, in any context |
| RbRemove.Remove | nvswitch/src/tree.h:520-586 | Removing any element of a valid tree, with none, one or two children, yields a valid red-black tree whose sequence is the old one without that element |
| RbRemove.SuccessorInorder | nvswitch/src/tree.h:525-563 | Putting the leftmost element of the right subtree in the place of the removed one removes just that element from the sequence |
| RbWalk.Find | nvswitch/src/tree.h:619-634 | Finds the element with an equal key or proves there is none, in at most `steps` turns with 2^steps <= (n+1)^2 |
| RedBlack.HeightIsLogarithmic | nvswitch/src/tree.h:53-54 | A red-black tree of n elements has height h with 2^h <= (n+1)^2 |
| RbWalk.NFind | nvswitch/src/tree.h:636-655 | Returns the least element not below the key, or nothing when all are below |
| RbWalk.Next | nvswitch/src/tree.h:658-678 | From element i of the sequence to element i+1, or to nothing at the end |
| RbWalk.Prev | nvswitch/src/tree.h:680-699 | From element i to element i-1: the inverse of the step forward |
| RbWalk.MinMax | nvswitch/src/tree.h:701-714 | The first or last element of the sequence, nothing when the tree is empty |
| RbWalk.Foreach | nvswitch/src/tree.h:728-731 | Stepping from the minimum visits the whole ascending sequence, each element once |
| Splay.SplayTo | nvswitch/src/tree.h:202-235 | Top-down splaying keeps the sequence and leaves at the root the sought key or a neighbour of its place in the order |
| Splay.Assemble | nvswitch/src/tree.h:105-110 | Hanging the two side trees under the root gives one tree with the elements in the same order |
| SplayOps.Insert | nvswitch/src/tree.h:157-179 | Set insert: an equal key is returned and nothing added, an element of the tree being itself returned; otherwise the element joins the ascending sequence |
| SplayOps.Remove | nvswitch/src/tree.h:181-200 | Set delete: the element with an equal key leaves the sequence, the rest stays in order; otherwise nothing leaves |
| SplayOps.Find | nvswitch/src/tree.h:121-130 | Returns the element with an equal key or nothing, keeping the sequence |
| SplayOps.Next | nvswitch/src/tree.h:132-144 | The element after a given one in the sequence, or nothing |
| SplayOps.MinMax | nvswitch/src/tree.h:237-271 | Brings the first or the last element to the root, keeping the sequence |
| VnetworkIndex.StrCmpComparator | nvswitch/src/vnetwork.c:35-53 | strcmp is a comparison the trees may use: antisymmetric, transitive, and 0 only on equal strings |
| VnetworkIndex.StrCmpOrders | nvswitch/src/vnetwork.c:35-53 | The order is that of strings: a proper prefix first, otherwise by the first character that differs |
| VnetworkIndex.Table.Lookup | nvswitch/src/vnetwork.c:107-113 | Returns the record with that uuid, or nothing exactly when there is none |
| VnetworkIndex.Table.LookupId | nvswitch/src/vnetwork.c:115-121 | Returns the record with that id, or nothing exactly when there is none |
| VnetworkIndex.Table.Create | nvswitch/src/vnetwork.c:167-193 | The new record enters each tree in which its key is unknown; the trees go on agreeing exactly when both keys are known or neither is |
| VnetworkIndex.Table.Disable | nvswitch/src/vnetwork.c:152-165 | Removes the record with that uuid from the first tree and the record with its id from the second; agreeing trees agree afterwards and the uuid is unknown |
| VnetworkIndex.Run | nvswitch/src/vnetwork.c:152-193 | Over every run of creations and disablings the two trees hold the records of a plain set up to the first creation with one key known and the other not, and part exactly there |
| VnetworkIndex.TwoWithoutId | nvswitch/src/control.c:311 | Two networks without an id: the second is created with a known id and a new uuid |
| Bits.AllocateBit | libnvcore/src/bitv.c:45-63 | Takes the lowest free bit and no other; fails, changing nothing, exactly when the whole bytes of the pool are full |
| Bits.ReleaseBit | libnvcore/src/bitv.c:35-43 | Clears that bit and no other; a number outside the pool changes nothing |
| Bits.SetKeeps | libnvcore/src/bitv.c:25-28 | Setting a bit of a byte leaves the other seven as they are |
| Bits.BitIs | libnvcore/src/bitv.c:20-23 | Bit j is the lowest one of the byte shifted by j |
| Linkst.LinkState.Resize | nvswitch/src/linkst.c:34-57 | Adds empty rows, five more than asked for while the limit allows; the set of joined pairs is kept and every access stays in bounds |
| Linkst.LinkState.Join | nvswitch/src/linkst.c:120-148 | Adds the unordered pair, growing the matrix when needed; ids outside the limit change nothing |
| Linkst.LinkState.Joined | nvswitch/src/linkst.c:89-118 | 1 exactly for a joined pair in either order, -1 exactly for ids outside the matrix |
| Linkst.LinkState.Disjoin | nvswitch/src/linkst.c:59-87 | Drops exactly the pairs with that id in them |
| Linkst.SamePair | nvswitch/src/linkst.c:89-118 | Two pairs are the same exactly when they have the same ids, in either order |
| NetworkSpec.AddKeeps | nvswitch/src/vnetwork.c:77-93 | A session that joins keeps ids distinct and equal to the set bits of the pool, and list, counter, links and table in agreement; its id is in no link |
| NetworkSpec.ForwardTable | nvswitch/src/switch.c:56-65 | After a frame the table has its source address, for the sender when it was unknown, and is as before otherwise |
| NetworkSpec.AddKeepsExactly | nvswitch/src/vnetwork.c:90-92 | A newcomer keeps all this if and only if fewer than MAX_NODE sessions are listed, as the allocator's failure is ignored |
| NetworkSpec.DropKeeps | nvswitch/src/switch.c:312-326 | After a disconnect the agreement holds and no list entry, table entry or link refers to the departed session or its id |
| NetworkSpec.DropUnlistedBreaks | nvswitch/src/vnetwork.c:55-75 | Disconnecting a session that was never listed always breaks the network: the list is emptied |
| NetworkSpec.ForwardKeeps | nvswitch/src/switch.c:39-108 | Forwarding a frame keeps the agreement; it changes neither the list nor the access table |
| NetworkSpec.AddrTypes | nvswitch/src/inet.c:54-70 | An address is broadcast exactly when its octets are all 0xff, and unicast exactly when they are not and do not begin 01 00 5e |
| NetworkSpec.Deliveries | nvswitch/src/switch.c:67-104 | A frame to an address in the table that is not six octets 0xff and does not begin 01 00 5e goes to its owner alone, a frame for the source's own owner to nobody, any other once to each listed session; the first kind introduces the two owners to each other exactly when they are not joined yet |
| NetworkSpec.IntroductionLinks | nvswitch/src/switch.c:83-91 | Introductions go to two listed sessions that are not joined before the frame and are afterwards |
| NetworkSpec.FloodCopies | nvswitch/src/switch.c:99-104 | A flood gives every listed session exactly one copy and nobody else any |
| Vnetwork.Session.AddMac | nvswitch/src/session.c:57-69 | The linked list of addresses then spells out the new address followed by all it spelled out before |
| Vnetwork.Vnet.ForgetMacs | nvswitch/src/switch.c:317-322 | Walking the linked list to its end takes exactly its addresses out of the table |
| Vnetwork.Vnet.AddSession | nvswitch/src/vnetwork.c:77-93 | On the doubly linked list, the bitmap and the counter this is exactly the joining step on values |
| Vnetwork.Vnet.Unlink | nvswitch/src/vnetwork.c:57-71 | A listed session leaves a list whose links are consistent both ways; for a session on no list the list is emptied |
| Vnetwork.LeftIs | nvswitch/src/vnetwork.c:57-71 | What is left is the list without the session, in its order, or nothing when it was not on it |
| Vnetwork.Vnet.OnDisconnect | nvswitch/src/switch.c:312-326 | The handler is exactly the leaving step on values, for listed sessions and for one that was never listed |
| Vnetwork.Vnet.ForwardEthernet | nvswitch/src/switch.c:39-108 | The handler changes the network and sends messages exactly as the forwarding step on values does |
| Vnetwork.Vnet.FloodAll | nvswitch/src/switch.c:99-104 | The loop over the linked list sends to the sessions of the list in order |
| SwitchRuns.NextKeeps | nvswitch/src/switch.c:39-333 | Every enabled event keeps: each network in agreement, listed sessions in one network and past step-up, every session's state in accord with its network |
| SwitchRuns.StepUpExactly | nvswitch/src/switch.c:182-236 | A step-up keeps the invariant if and only if it does not add to a full network |
| SwitchRuns.DisconnectExactly | nvswitch/src/switch.c:293-333 | A disconnect keeps the invariant if and only if the session is not authenticated yet, has no network, or is listed |
| SwitchRuns.DelNetExactly | nvswitch/src/control.c:106-138 | Deleting a network keeps the invariant if and only if all its sessions are listed |
| SwitchRuns.WaitingBreaks | nvswitch/src/vnetwork.c:57-59 | A client that asks for a network and leaves before its step-up, or whose network is deleted then: an allowed run up to the last event, which loses the invariant |
| SwitchRuns.OverfullBreaks | nvswitch/src/vnetwork.c:90-92 | The run in which MAX_NODE + 1 sessions join a network: all but the last event allowed, the last loses the invariant |
| SwitchRuns.InvAlways | nvswitch/src/switch.c:39-333 | The invariant holds in every state of every run |
| SwitchRuns.ListedHasPassed | nvswitch/src/switch.c:212-230 | A listed session has passed the access-table check of that network and neither has left since nor has the network been deleted |
| SwitchRuns.Isolation | nvswitch/src/switch.c:39-108 | Over every run, whatever is sent on account of a frame goes to sessions of the sender's own network that passed its access-table check |
| SwitchRuns.RunDeliveries | nvswitch/src/switch.c:67-104 | Over every run, frames of authenticated sessions are delivered, and owners introduced, by the table and the links of their network, others not at all |
| SwitchRuns.IntroducedOnce | nvswitch/src/switch.c:86-91 | Over every run two sessions are introduced at most once while both stay connected and their network lasts |
| SwitchRuns.RunForgets | nvswitch/src/switch.c:312-326 | Over every run, after a disconnect no table, list, link or pool bit refers to the departed session |
| SwitchRuns.NewlyListed | nvswitch/src/request.c:39-144 | An event lists a session only by its own successful step-up, after a request for that network |
| SwitchHistory.FactNext | nvswitch/src/switch.c:39-333 | What each event does to each fact: connection, waiting, existence of a network, access table entry, membership, authentication, forwarding table entry, link |
| SwitchHistory.History | nvswitch/src/switch.c:39-333 | Over every run each fact holds exactly when an event has made it true and none has ended it since: table entries by frames, membership by step-ups with a node of the access table, links by introductions, access by the controller |
| SwitchHistory.LearnedUnicast | nvswitch/src/switch.c:56-80 | Once a session has taught an address, frames to it from other owners go to that session alone until it leaves or the network is deleted |
| SwitchHistory.AdmittedOnly | nvswitch/src/switch.c:212-230 | Whatever is sent on account of a frame goes to sessions that joined the sender's network with a node in its access table and have not left |
| SwitchHistory.PurgedSilent | nvswitch/src/control.c:66-103 | A session whose node has been deleted has no frame forwarded until it is gone |
| SwitchHistory.Answers | nvswitch/src/request.c:39-144 | A session is asked to step up exactly when it then waits, told of success exactly when it joins, and of failure exactly when the network or its node is unknown |
| HashTable.Table.Find | libnvcore/src/jsw_hlib.c:147-162 | The item the map has for the key's class, or nothing; for any hash that respects the comparison |
| HashTable.Table.Insert | libnvcore/src/jsw_hlib.c:169-208 | Adds the item to the map, or refuses a key whose class is present and changes nothing |
| HashTable.Table.Erase | libnvcore/src/jsw_hlib.c:215-272 | Removes the key's class from the map and says whether it was there; chains left empty lose their head, and the traversal starts over |
| HashTable.Table.Resize | libnvcore/src/jsw_hlib.c:279-305 | The rebuilt table has the new capacity and the same map |
| HashTable.Table.Reset | libnvcore/src/jsw_hlib.c:308-326 | Everything in the table is still to be visited |
| HashTable.Table.Next | libnvcore/src/jsw_hlib.c:329-351 | Moves past the first of what is still to be visited; 0 exactly when that was the last, 1 when nothing was left |
| HashTable.Table.Visit | libnvcore/src/jsw_hlib.c:308-351 | From a reset until the first 0 every key is met, none twice |
| HashTable.MapOfWithout | libnvcore/src/jsw_hlib.c:200-208 | A node anywhere among nodes of other classes adds exactly its own entry to the map |
| HashTable.Table.InBucket | libnvcore/src/jsw_hlib.c:147-162 | A key's class is in the map exactly when the chain of its slot has a node of that class |
| IpPool.SwapTwice | nvctrler/src/ippool.c:107-111 | Swapping the octets of a word twice gives it back |
| IpPool.SubSwap | nvctrler/src/ippool.c:107-111 | Subtracting byte-swapped words agrees with subtracting in host order when no octet borrows |
| IpPool.OrSwap | nvctrler/src/ippool.c:110 | Bitwise or commutes with the swapping of octets |
| IpPool.Calc | nvctrler/src/ippool.c:92-114 | For every address and every contiguous mask of prefix 1 to 30 no octet borrows: the first host is the network address plus 1, the last the broadcast address less 1, and the host count is their distance |
| IpPool.CalcWhole | nvctrler/src/ippool.c:92-114 | The same for prefix 0 |
| IpPool.CalcWraps | nvctrler/src/ippool.c:107-109 | For the prefixes 31 and 32 the host count wraps around below zero |
| IpPool.TakeBit | nvctrler/src/ippool.c:55-80 | Takes the lowest free bit up to the limit; fails, changing nothing, exactly when all those are set |
| IpPool.FreeBit | nvctrler/src/ippool.c:82-90 | Clears a bit up to the limit and no other; above it nothing changes |
| IpPool.Pool.constructor | nvctrler/src/ippool.c:148-160 | A new pool has its range computed and no address in use |
| IpPool.Pool.GetIp | nvctrler/src/ippool.c:116-132 | The lowest usable address not in use, now in use; nothing exactly when all usable addresses are in use |
| IpPool.Pool.ReleaseIp | nvctrler/src/ippool.c:134-146 | A usable address is in use no more, all others as before; an address outside the range changes nothing |
| IpPool.GetThenRelease | nvctrler/src/ippool.c:116-146 | Releasing an address just obtained restores the pool |
| Controller.NextKeepsExactly | nvctrler/src/request.c:251-270 | A request keeps stored addresses apart and their bits saved if and only if it neither loses the pool write after storing a node nor releases an address whose deletion was refused unnoticed |
| Controller.InvAlways | nvctrler/src/request.c:57-138 | Without those two failures this holds in every state of every run, whatever other calls fail |
| Controller.LostWriteShares | nvctrler/src/request.c:258-270 | Whenever the pool write is lost, the next node is stored with the same address |
| Controller.RefusedDeletionShares | nvctrler/src/request.c:380-413 | Whenever a refused deletion goes unnoticed, the next node is stored with the address of the one still there if and only if no lower address is free |
| Controller.RunsThatShare | nvctrler/src/request.c:251-270 | Both happen in runs from the empty database |
| Controller.AddsNode | nvctrler/src/request.c:212-270 | With no call failing, a new node of a network with a free address is stored with the lowest one, whose bit is saved; otherwise nothing changes |
| Controller.DeletesNode | nvctrler/src/request.c:380-413 | With no call failing, the node is gone, exactly its bit has left the saved pool, and all else is as before |
| Controller.AddThenDelete | nvctrler/src/request.c:251-413 | Deleting a node just added restores the database |
| Controller.AddsNetwork | nvctrler/src/request.c:896-919 | A new network has an empty pool, a known one stays as it is |
| Controller.DeletesNetwork | nvctrler/src/request.c:103-118 | No node and no pool of the network is left, all others are as before |
| Controller.NetworkComesAndGoes | nvctrler/src/request.c:103-118 | Adding a network and any nodes to it and then deleting it restores the database |
| Controller.FailedCalls | nvctrler/src/request.c:212-413 | A call that fails leaves what the calls before it have done and no more |
| Controller.Store.AddNode | nvctrler/src/request.c:212-270 | The request's database calls, with their early exits, on real pools amount to the step on values |
| Controller.Store.DelNode | nvctrler/src/request.c:380-413 | Likewise for deleting a node |
| Controller.Store.AddNetwork | nvctrler/src/request.c:896-919 | Likewise for adding a network, with an empty pool for 44.128.0.0/16 |
| Controller.Store.DelNetwork | nvctrler/src/request.c:103-118 | Likewise for deleting a network: first its nodes, then its row |
| Controller.TakeIp | nvctrler/src/ippool.c:116-132 | On the controller's network the address given is the first one plus the lowest free bit |
| Octets.StrippedIs | libnvcore/src/protocol/INTEGER.c:60-98 | Dropping superfluous leading octets keeps the number and leaves the minimal form, a suffix of the octets |
| Octets.UnsignedAppend | libnvcore/src/protocol/INTEGER.c:816-818 | The most significant octet comes first |
| Octets.MinimalShortest | libnvcore/src/protocol/INTEGER.c:908-913 | No other octets of the same number are fewer than the minimal ones |
| Octets.MinimalUnique | libnvcore/src/protocol/INTEGER.c:908-913 | The minimal octets of a number are unique |
| IntegerCodec.Integer.Canonicalize | libnvcore/src/protocol/INTEGER.c:60-98 | The buffer is made minimal in place, keeping its number |
| IntegerCodec.Integer.FromLong | libnvcore/src/protocol/INTEGER.c:881-934 | The shortest two's-complement octets of the long |
| IntegerCodec.Integer.ToLong | libnvcore/src/protocol/INTEGER.c:764-822 | The number of any octets, or a range error exactly when it does not fit 64 bits |
| IntegerCodec.Integer.FromUlong | libnvcore/src/protocol/INTEGER.c:856-879 | The shortest two's-complement octets of the unsigned long, which also read back unsigned |
| IntegerCodec.Integer.ToUlong | libnvcore/src/protocol/INTEGER.c:824-854 | The octets as an unsigned number, or a range error exactly when that does not fit 64 bits |
| IntegerCodec.EncodeNative | libnvcore/src/protocol/NativeInteger.c:132-164 | The contents octets are the minimal form of the machine word |
| IntegerCodec.DecodeNative | libnvcore/src/protocol/NativeInteger.c:97-118 | The number of the octets, signed or unsigned, or failure exactly when it does not fit |
| IntegerCodec.NativeSigned | libnvcore/src/protocol/NativeInteger.c:97-164 | Every signed value comes back, from its shortest octets |
| IntegerCodec.NativeUnsigned | libnvcore/src/protocol/NativeInteger.c:97-164 | An unsigned value comes back if and only if its top nine bits are not all ones |
| Strtol.StrtolLim | libnvcore/src/protocol/INTEGER.c:965-1022 | The exact value of the longest digit prefix with the end position behind it, or a range error exactly when the value does not fit, with the end at the digit that leaves the range; the computation overflows exactly on the inputs singled out |
| Strtol.PushStands | libnvcore/src/protocol/INTEGER.c:990-1009 | One digit either extends the number exactly, or proves it out of range, or overflows, the last exactly when the sign has been folded in |
| Strtol.DigitAfterMinimum | libnvcore/src/protocol/INTEGER.c:995-1001 | "-92233720368547758080" overflows although its number does not fit |
| Strtol.SignedDecimalParses | libnvcore/src/protocol/INTEGER.c:147-151 | The decimal text of any number is parsed back to it, without overflow when it fits a long |
| Strtol.DigitsAre | libnvcore/src/protocol/INTEGER.c:989-991 | A digit has the value of its place in 0123456789, and there are no others |
| Strtol.SignsAre | libnvcore/src/protocol/INTEGER.c:975-984 | A plus changes nothing, a minus negates |
| IntegerParser.ParseIs | libnvcore/src/protocol/INTEGER.c:307-524 | The meaning of every text: digits with a sign or not between white space are a decimal number, pairs of hexadecimal digits of either case with colons between them are octets, a tag is a name, white space alone is ignored, everything else is broken |
| IntegerParser.DigitValue | libnvcore/src/protocol/INTEGER.c:442-462 | A hexadecimal digit of either case has the value of its place in the alphabet |
| IntegerText.Dump | libnvcore/src/protocol/INTEGER.c:108-186 | Prints the name of a number that has one, else its decimal text when it fits the machine word, signed or unsigned, else all its octets as xx:yy:zz; nothing when only names are allowed; the scratch buffers never overflow |
| IntegerText.DumpIs | libnvcore/src/protocol/INTEGER.c:120-152 | A name is printed as an empty element or after its number, another number in decimal without leading zeros; nothing exactly when a name is demanded and there is none |
| IntegerText.PairDigits | libnvcore/src/protocol/INTEGER.c:169-178 | Octets are printed as two upper-case digits |
| IntegerParser.TurnSane | libnvcore/src/protocol/INTEGER.c:342-477 | Each character keeps positions and the buffer bound; the position falls back only when the rank falls from 1 to 0, so the text is started over at most once |
| IntegerText.DecodeBody | libnvcore/src/protocol/INTEGER.c:307-524 | Ends on every input, writes inside a buffer of a third of the text plus two octets, and delivers what the text stands for |
| IntegerText.DumpParses | libnvcore/src/protocol/INTEGER.c:307-524 | What the parser makes of a printed text: all its octets, the number of the name, or the whole decimal text of the number |
| IntegerText.DumpReadsBackExactly | libnvcore/src/protocol/INTEGER.c:108-524 | A printed number is parsed back to the same number if and only if it is not an unsigned one above LONG_MAX that fits the word |
| IntegerText.TopNotReadBack | libnvcore/src/protocol/INTEGER.c:149-151 | An unsigned number of eight octets that is printed and not read back |
| OctetString.Compose | libnvcore/src/protocol/OCTET_STRING.c:451-501 | Feeding the decoder two pieces of input one after the other ends as feeding it both at once |
| OctetString.SplitInvariant | libnvcore/src/protocol/OCTET_STRING.c:451-501 | For every way of cutting the contents octets the resumed decoder ends with the string and unused bits of one call, or fails like it |
| OctetString.Decoder.Append | libnvcore/src/protocol/OCTET_STRING.c:79-105 | Appends the octets and a terminating 0 inside a doubled buffer, or fails exactly when 2^30 octets would be reached |
| OctetString.Decoder.Decode | libnvcore/src/protocol/OCTET_STRING.c:451-509 | A call on real buffers is exactly the step on values, with the octets it consumes |
| OctetString.EncodeDer | libnvcore/src/protocol/OCTET_STRING.c:554-576 | The contents octets: the unused bits first, the last octet without them |
| OctetString.RoundTrip | libnvcore/src/protocol/OCTET_STRING.c:451-576 | A BIT STRING that satisfies its constraint is decoded from its encoding with the same bits, unused ones zero; an OCTET STRING as it is |
| OctetString.ConstraintIs | libnvcore/src/protocol/BIT_STRING.c:47-68 | The constraint: no unused bits in an empty string, at most seven in another |
| OctetString.UnusedNotBack | libnvcore/src/protocol/OCTET_STRING.c:451-576 | With more than seven unused bits their number does not come back |
| OctetString.DecodesTo | libnvcore/src/protocol/OCTET_STRING.c:451-501 | Of any contents an OCTET STRING has all octets; a BIT STRING all but the first, the bits it counts as unused zero in the last and the others as they were |
| OctetString.DecodesNoMore | libnvcore/src/protocol/OCTET_STRING.c:79-105 | A string of 2^30 octets and more is refused |
| XerHex.EncodeXer | libnvcore/src/protocol/OCTET_STRING.c:580-640 | Prints the hexadecimal digits, plain or in indented rows of sixteen, through a scratch buffer that never overflows |
| XerHex.PrintedMeaning | libnvcore/src/protocol/OCTET_STRING.c:580-855 | Whatever is printed, plain or indented, stands for exactly the octets printed |
| XerHex.MeaningIs | libnvcore/src/protocol/OCTET_STRING.c:783-855 | A text stands for the octets whose digits it has two by two, in either case, whatever white space there is, and a digit left over when their number is odd |
| XerHex.LegalIs | libnvcore/src/protocol/OCTET_STRING.c:804-830 | White space and hexadecimal digits of either case are legal, and nothing else |
| XerHex.CanonicalAt | libnvcore/src/protocol/OCTET_STRING.c:602-615 | In the canonical form there are two digits an octet and nothing else |
| XerHex.PrintedAt | libnvcore/src/protocol/OCTET_STRING.c:616-637 | Otherwise octets stand in rows of sixteen, each two digits and a space, with an indented line break before each row when there is more than one |
| XerHex.ConvertHexadecimal | libnvcore/src/protocol/OCTET_STRING.c:783-855 | Appends the octets of any legal text inside the reallocated buffer; a digit left over is completed or left unread; -1 exactly for illegal text |
| XerHex.Resumes | libnvcore/src/protocol/OCTET_STRING.c:834-854 | Text left unread, followed by more, gives what the whole would have given |
| XerHex.PrintedConverts | libnvcore/src/protocol/OCTET_STRING.c:580-855 | Converting a printed text on an empty string gives back the octets and takes the whole text |
| XerBinary.EncodeBits | libnvcore/src/protocol/BIT_STRING.c:76-134 | Prints every bit but the unused ones, through a scratch buffer that never overflows; the last line break comes before the row still in hand |
| XerBinary.LaidExactly | libnvcore/src/protocol/BIT_STRING.c:99-117 | The rows are laid out with each line break where its row begins if and only if the last octet does not begin a row, or is the first |
| XerBinary.NineOctets | libnvcore/src/protocol/BIT_STRING.c:113-117 | Nine octets are laid out otherwise |
| XerBinary.Misplaced | libnvcore/src/protocol/BIT_STRING.c:113-117 | Where the layout differs the last full row and the line break after it have changed places |
| XerBinary.LaidAt | libnvcore/src/protocol/BIT_STRING.c:99-134 | In the layout octets stand in rows of eight, each its bits, with an indented line break before each row |
| XerBinary.CanonicalBitsAt | libnvcore/src/protocol/BIT_STRING.c:76-134 | In the canonical form there are the bits alone |
| XerBinary.BitCharsAt | libnvcore/src/protocol/BIT_STRING.c:70-74 | Bits are printed from the highest down, 1 for a bit that is set |
| XerBinary.PrintedBitsRead | libnvcore/src/protocol/BIT_STRING.c:76-134 | A printed bit string that satisfies its constraint is read back, its unused bits zero |
| XerBinary.ReadConcat | libnvcore/src/protocol/OCTET_STRING.c:860-917 | Converting one text and then another is converting both together |
| XerBinary.ReadPrints | libnvcore/src/protocol/OCTET_STRING.c:860-917 | The bits read from a text are those it has, in order: written again they are the text without its white space |
| XerBinary.BinLegalIs | libnvcore/src/protocol/OCTET_STRING.c:884-902 | White space, 0 and 1 are legal, and nothing else |
| XerBinary.ReadTidy | libnvcore/src/protocol/OCTET_STRING.c:860-917 | Unused bits that are zero stay zero |
| XerBinary.ConvertBinary | libnvcore/src/protocol/OCTET_STRING.c:860-917 | Appends the bits of the text to a string whose last octet may be unfinished, inside the reallocated buffer; -1 exactly for illegal text |
| XerEntities.EncodeUtf8 | libnvcore/src/protocol/OCTET_STRING.c:736-778 | Writes every character, those of the escape table by their sequence |
| XerEntities.Escaping | libnvcore/src/protocol/OCTET_STRING.c:642-688 | How every character is written: the three of markup as entities, control characters as empty elements of their names, all others as they are |
| XerEntities.ConvertEntrefs | libnvcore/src/protocol/OCTET_STRING.c:962-1097 | Appends the text with its entities expanded, inside the reallocated buffer, and says how much is converted |
| XerEntities.EscapedExpands | libnvcore/src/protocol/OCTET_STRING.c:736-1097 | Text free of control characters other than tab, LF and CR comes back from its escaped form, which has no numeric reference, all of it read |
| XerEntities.ExpandResumes | libnvcore/src/protocol/OCTET_STRING.c:1078-1090 | What is converted before a stall, followed by what the unread rest gives with more text, is what the whole text gives |
| XerEntities.EntityIs | libnvcore/src/protocol/OCTET_STRING.c:1040-1075 | The three entities; another ampersand is itself when a semicolon is among the first five characters, and more is wanted otherwise |
| XerEntities.ExpandIs | libnvcore/src/protocol/OCTET_STRING.c:962-1097 | Characters and entities are expanded one after the other; an ampersand whose end is not in sight is copied or stops the conversion |
| XerEntities.EscapesApart | libnvcore/src/protocol/OCTET_STRING.c:642-688 | No two control characters are written the same |
| XerEntities.HandleControl | libnvcore/src/protocol/OCTET_STRING.c:691-728 | The tag of a control character appends that character, any other nothing |

## Left out

- Sockets, threads, TLS, certificates and the event loops: foreign calls.
- `dao.c`, but for which of its calls report a failure; account, apikey and certificate handling in `request.c`.
- JSON messages of `control.c`; their effect on networks and access tables is in the step machine.
- `ctable`: nothing is claimed about which session it names; deleting a node may mark any session of the network.
- The lookup by id for old certificates in `authRequest`: a request names its network directly.
- Getters and setters of `dnds.c`, generated descriptors, PER, constructed BER strings, tags and lengths.
- Releasing memory, and that `jsw_hresize` hands the new table to nobody: the rebuilt table is what is modelled.
- Hash functions: any hash that respects the comparison. Items of the hash table are never NULL.
- The cutting of XML text into tags and text between them: the converters get these one at a time.
- Message queues (`mbuf.c`), input buffering (`netbus.c`), `context.c`, `queue.h`, the agent.
- Link timestamps are kept but nothing is stated of them. Wrap-around of 32 bits in `linkst.c` cannot occur
  below the limit of 1024 and is not modelled.
- The text forms of IP addresses: addresses are words, and an unreadable text is `None`.
- INTEGER as ENUMERATED: the tables of names are parameters of the printer and of the parser.
- XerEntities.ConvertEntrefs: text without numeric character references only.
- OctetString.Decoder.Append: strings of less than 2^32 octets; the size of the string is an int and wraps there.
- OctetString.Decoder.Decode: contents of less than 2^32 octets; unused bits of 32 and more, where C leaves the
  shift undefined, clear the whole last octet. Subtype ANY is left out.
- IpPool.Calc: contiguous masks only; prefix 0 is apart in `IpPool.CalcWhole`.
- IpPool.Pool.constructor: prefixes 1 to 30; with more than 2^31 hosts a bit number does not fit the int it is kept in.
- XerBinary.ConvertBinary: an empty string has no unused bits; one that has trips the converter's own assertion on
  some texts.
- VnetworkIndex.Table: that a tree entry lies inside its record is modelled by a map from entries to records.
- HashTable.Table.Visit: the loop of a caller, put together from reset and next.
