# Verified models of network and concurrency code

This project models, in Dafny 4.11, the hard core of a repository of network and
concurrency programs, and proves what they promise for every input, every run
and every reachable state. `dafny verify dfyconfig.toml` checks all of it.

The centre is the **Patricia trie for IP prefixes** (`patricia.c`, `patricia.h`):
a mutable compressed radix trie with parent pointers, glue nodes, in-place
relinking, explicit-stack walks and reference-counted keys.

- `Bits.dfy`: addresses as octets, as bit strings and as numbers; the octet-wise
  comparison and XOR scan compute the obvious thing, and a key is the leading part
  of the number that its address is.
- `Prefixes.dfy`: reference-counted prefixes.
- `Shape.dfy`: the trie as a value (which nodes are in use, what their fields
  hold), its invariant, what the invariant implies, and the effect of each
  relinking step. A node's `stem` is the bit string shared by every key at or
  below it; the invariant says that links agree in both directions, that stems
  grow along child links on the side of their next bit, that a node with a
  prefix stands for exactly that key, and that glue has two children and no data.
- `Placement.dfy`: why the walks of search and insertion end at the right spot.
- `Trie.dfy`: the trie in place (module `Patricia`, class `Tree`), each operation
  proved against the map `contents` from keys to nodes. Longest match is the rule
  of section 5.1 of RFC 4632 and section 5.2.4.3 of RFC 1812. The ghost field
  `cells` mirrors the fields of all nodes in use, so that the reasoning of
  `Shape.dfy` applies to the heap.
- `Traversal.dfy`, `Walks.dfy`: recursive traversals and the explicit-stack ones
  that equal them; counting; tearing down.
- `Client.dfy`: a ledger of references, and whole runs of insertions and removals,
  over prefixes of any width and over IPv4 prefixes given as text.
- `Ascii.dfy`: reading and writing prefixes as text.

Around it stand smaller models, each with a property of all runs:

- `OrChannel.dfy`, `FanIn.dfy`, `Steward.dfy`: three goroutine protocols as step
  systems (the recursive `or` channel, `fanIn` with its WaitGroup, the steward
  that restarts wards). A step is one operation on a channel or WaitGroup, or the
  start of a goroutine; any interleaving is a run.
- `CondQueue.dfy`: a bounded queue under a mutex and a condition variable.
- `PrefixGen.dfy`: a four-deep loop nest with a cut-off against a plain enumeration.
- `Bgpsec.dfy`: the path verification loop that chains target AS numbers, in the
  octet layout of the code (section 5.2 of RFC 8205 has a later one).

Keys of the trie are the first `bitlen` bits of an address: host bits are not
masked on insertion, so they play no part in equality. `free` is modelled as
leaving the set of nodes in use (or, for a prefix, as ceasing to be alive). The
C `assert`s of the trie are proved; those about links are preconditions of
`Hang` and `InsertChild`, met at every call.

## Where the code does less than one might expect

- Queue insertion starts at the read index, so items are appended only if the
  queue was empty (`CondQueue.FifoIff`). Two batches on a new queue come out as the
  second one, the rest of the first and slots never written (`TwoBatches`); of 'a'
  and then 'b' a consumer gets 'b' and then a zero (`FifoFails`).
- A multiplexer of `fanIn` looks at `done` only while it holds a value, so closing
  `done` closes the output only together with the inputs (`FanIn.RestsClosedIff`).
- Between `close(wardDone)` and the next `startWard()` the steward has no ward with
  an open wardDone, and the only ward may be gone already (`Steward.GapBetweenWards`).
- The BGPsec loop also ends when the path list ends, and then reports success
  without having looked at the origin: `Bgpsec.SoundIff` says exactly when success
  means that every announced signature verifies, `AcceptedWithoutOrigin` gives an
  accepted update with one segment where two are announced, and with no segment
  announced everything that passes the sanity check is accepted
  (`NothingAnnounced`). Signatures, prefix and key array are read without a check of
  their size; the model then ends with `Fault`, and `FaultsIff` says when that can be.
- make_and_lookup, try_search_exact and lookup_then_remove use the result of
  ascii2prefix without looking at it, so a text that does not parse ends the program
  (`Client.RunTexts`).
- `generatePrefix` counts one line before it looks at the limit, so a limit below
  one yields one line; a dry run counts lines without writing them to the file, and
  without a file nothing is counted, so that the limit has no effect; its parameter
  `i` is the first octet, not a prefix length as its comment has it
  (`PrefixGen.GeneratePrefix`).

## Model

| member | source | states |
|---|---|---|
| Client.Run | Programming/Database_perf_test/patricia.c:663-979 | after any sequence of patricia_lookup of a new prefix and patricia_remove of a found one, from an empty trie of any width, the invariant holds, exactly the keys inserted and not erased since are stored, the client owes nothing, and a prefix made on the way is alive exactly if a node holds it |
| Client.RunTexts | Programming/Database_perf_test/patricia.c:983-1022 | any run of make_and_lookup and lookup_then_remove over texts goes on exactly to the first text that is not an address, overruns the buffer or is too long for the trie; the keys stored are those that survive the lines carried out, and no reference is left over |
| Client.ExactAfterRun | Programming/Database_perf_test/patricia.c:492-559 | after any run patricia_search_exact is non-null exactly if the key was inserted and not erased since, and then returns the node patricia_lookup returns |
| Client.BestAfterRun | Programming/Database_perf_test/patricia.c:563-660 | after any run the best match is the longest surviving key that is a prefix of the query, and shorter than it unless inclusive; null exactly if there is none |
| Client.SurvivesStep | Programming/Database_perf_test/patricia.c:983-1022 | whether a key survives a run is decided by its last insertion or erasure |
| Client.Ledger.NewPrefix | Programming/Database_perf_test/patricia.c:221-270 | a new prefix starts with one reference, owed by the client, and no holder; the books stay balanced |
| Client.Ledger.Release | Programming/Database_perf_test/patricia.c:358-372 | giving a reference back keeps the books balanced; the prefix dies exactly when nothing is owed and no node holds it |
| Client.Ledger.Lookup | Programming/Database_perf_test/patricia.c:663-873 | patricia_lookup of a heap prefix keeps the books balanced: one more reference and one more holder exactly if the key was not stored |
| Client.Ledger.LookupStatic | Programming/Database_perf_test/patricia.c:344-356 | patricia_lookup of a static prefix keeps the books balanced: the trie alone holds a copy exactly if the key was not stored |
| Client.Ledger.Remove | Programming/Database_perf_test/patricia.c:876-979 | patricia_remove keeps the books balanced and takes exactly the node's key out; the prefix survives exactly if the client still owes a reference |
| Client.Ledger.MakeAndLookup | Programming/Database_perf_test/patricia.c:983-994 | for every text: fails exactly if the text is not usable; else its key is stored, and the new prefix outlives the call exactly if the key was not stored before, then with one reference |
| Client.Ledger.LookupThenRemove | Programming/Database_perf_test/patricia.c:996-1022 | for every text: fails exactly if the text is not usable; else removes its key if it is stored, reports whether it was, and leaves its own search prefix dead |
| Client.WireBit | Programming/Database_perf_test/patricia.c:111-129 | the bits of a key are the binary digits of the numbers in the text, the highest digit of an octet first |
| Client.WireKey | Programming/Database_perf_test/patricia.c:111-129 | the key of an address and a length is the leading part of the number that the dotted address is |
| Client.FullKeysDiffer | Programming/Database_perf_test/patricia.c:111-129 | different addresses are different keys of full length |
| Client.UsableIff | Programming/Database_perf_test/patricia.c:272-342 | for IPv4 the texts that do not end the program are exactly those with one to four numbers up to 255 before the first slash, if that comes within the buffer |
| Client.HostKey | Programming/Database_perf_test/patricia.c:318-325 | a text without a slash stands for the key of all 32 bits of its address |
| Client.SlashedKey | Programming/Database_perf_test/patricia.c:306-325 | an address, a slash and a decimal number stand for the first so many bits of the address, at most 32 |
| Patricia.Tree.constructor | Programming/Database_perf_test/patricia.c:382-393 | an empty trie satisfies the invariant |
| Patricia.Tree.Lookup | Programming/Database_perf_test/patricia.c:663-873 | the stored map becomes old plus the key, the returned node is the key's node, every node that stored a key keeps its prefix and data, new nodes are fresh, and the prefix gains one reference (a static one is copied) exactly if the key was new |
| Patricia.Tree.InsertAt | Programming/Database_perf_test/patricia.c:770-872 | in each of the four ways of storing a new key only the returned node comes to store something, and the invariant is kept |
| Patricia.Tree.FindSpot | Programming/Database_perf_test/patricia.c:691-768 | the two walks and the comparison find the topmost node at or below the first bit that differs from the nearest stored key |
| Patricia.Tree.Nearest | Programming/Database_perf_test/patricia.c:693-726 | the downward walk ends at a node that stores a prefix, follows the key at every branching the key reaches, and stops short of the key only at an empty slot on the key's side |
| Patricia.Tree.Climb | Programming/Database_perf_test/patricia.c:757-768 | the upward walk ends at the topmost node on the path at or below the differing bit |
| Patricia.Tree.Remove | Programming/Database_perf_test/patricia.c:876-979 | exactly the node's key leaves the stored map, every other stored node keeps prefix and data, only the node and a glue parent can go, and the trie's reference is given back |
| Patricia.Tree.Erase | Programming/Database_perf_test/patricia.c:884-978 | each of the three shapes of a node in use can be removed; the invariant is kept and only that key is lost |
| Patricia.Tree.EraseWithGlue | Programming/Database_perf_test/patricia.c:916-946 | removing a leaf under glue splices the glue node out and promotes the sibling |
| Patricia.Tree.Hang | Programming/Database_perf_test/patricia.c:822-831 | what hangs at a place is replaced there; the link or head that is overwritten is the one expected, as the asserts in the code demand |
| Patricia.Tree.SearchExact | Programming/Database_perf_test/patricia.c:492-559 | returns the node stored under the key, and null exactly if the key is not stored |
| Patricia.Tree.SearchBest | Programming/Database_perf_test/patricia.c:563-653 | returns the stored node of greatest length covering the query (strictly shorter if not inclusive), and null exactly if none covers it |
| Patricia.Tree.CollectCandidates | Programming/Database_perf_test/patricia.c:583-621 | the stack never holds more than bitlen + 1 nodes and misses no stored key that covers the query |
| Patricia.Tree.PopBest | Programming/Database_perf_test/patricia.c:633-652 | popping returns the deepest candidate that covers the query |
| Patricia.Tree.HeldOnce | Programming/Database_perf_test/patricia.c:344-356 | no prefix is held by two nodes of a trie |
| Patricia.Tree.SetData | Programming/Database_perf_test/patricia.h:104-105 | setting the datum of a node that stores a key keeps the invariant and what is stored, and changes nothing else |
| Shape.HangsOnParent | Programming/Database_perf_test/patricia.c:663-979 | under the invariant a parent's bit is smaller and the node hangs on the side that its own bits name |
| Shape.HeadAbove | Programming/Database_perf_test/patricia.c:663-979 | the head's bits are a prefix of every node's bits, so every node is reachable from the head |
| Shape.Descend | Programming/Database_perf_test/patricia.c:663-979 | a node whose bits are a prefix of another's is that node or an ancestor of it: the child on that side exists and is again above |
| Shape.StemsDiffer | Programming/Database_perf_test/patricia.c:663-979 | no two nodes stand for the same bits |
| Shape.HeldOnce | Programming/Database_perf_test/patricia.c:663-979 | two nodes holding one prefix are one node |
| Shape.PlantKeeps | Programming/Database_perf_test/patricia.c:675-689 | the first node makes a well-formed trie that stores its key |
| Shape.AttachKeeps | Programming/Database_perf_test/patricia.c:795-811 | a new leaf in an empty slot keeps the invariant |
| Shape.SpliceKeeps | Programming/Database_perf_test/patricia.c:813-837 | a new node between a node and its parent keeps the invariant |
| Shape.ForkKeeps | Programming/Database_perf_test/patricia.c:838-871 | glue above a node with a new leaf on its other side keeps the invariant |
| Shape.RefillKeeps | Programming/Database_perf_test/patricia.c:884-898 | filling glue, or turning a node with two children into glue, keeps the invariant and changes what that node stores only |
| Shape.DetachKeeps | Programming/Database_perf_test/patricia.c:905-927 | cutting a leaf leaves everything well formed except possibly its parent |
| Shape.SiblingRemains | Programming/Database_perf_test/patricia.c:916-942 | a glue parent that lost a leaf has exactly one child left, so what is promoted is not null |
| Shape.DetachTwoKeeps | Programming/Database_perf_test/patricia.c:900-946 | a leaf and its glue parent go together, the invariant is kept and nothing else that is stored is lost |
| Shape.BypassKeeps | Programming/Database_perf_test/patricia.c:929-944 | replacing a node by its only child keeps the invariant |
| Shape.OnlyChild | Programming/Database_perf_test/patricia.c:952-978 | a node with one child can be replaced by it |
| Shape.LoneLeaf | Programming/Database_perf_test/patricia.c:910-914 | a leaf without parent is the head and the only node |
| Shape.NowStores | Programming/Database_perf_test/patricia.c:663-873 | storing one node's key extends the stored map by that key and nothing else |
| Shape.NoLongerStores | Programming/Database_perf_test/patricia.c:876-979 | erasing one node's key shrinks the stored map by that key and nothing else |
| Placement.StepTowards | Programming/Database_perf_test/patricia.c:510-537 | a step towards a key misses no stored key that covers it |
| Placement.StopsAt | Programming/Database_perf_test/patricia.c:546-557 | below a node at least as deep as the key only that node can store it |
| Placement.CollectNext | Programming/Database_perf_test/patricia.c:583-618 | a step of the best-match descent keeps the candidates sorted by depth and complete |
| Placement.CollectLast | Programming/Database_perf_test/patricia.c:620-621 | after the descent every key that covers the query is a candidate |
| Placement.FollowStep | Programming/Database_perf_test/patricia.c:695-724 | the walk of patricia_lookup stays on the key's side at every branching |
| Placement.Absent | Programming/Database_perf_test/patricia.c:787-872 | a key that leaves the path between a node and its parent is not stored |
| Placement.SpotHit | Programming/Database_perf_test/patricia.c:770-785 | found or glue to fill: the node's bits are the key, and glue means the key was not stored |
| Placement.SpotChild | Programming/Database_perf_test/patricia.c:795-811 | new child: the slot on the key's side is empty, as the asserts demand, and the key was not stored |
| Placement.SpotAbove | Programming/Database_perf_test/patricia.c:813-837 | new parent: the key fits strictly between the node and its parent on the side the compared address names, and was not stored |
| Placement.SpotFork | Programming/Database_perf_test/patricia.c:838-871 | glue and node: key and node part exactly at the differing bit, and the key was not stored |
| Bits.CompWithMask | Programming/Database_perf_test/patricia.c:50-62 | true exactly if the first mask bits agree, that is if the addresses as numbers agree after division by the power of two for the other bits |
| Bits.DifferBit | Programming/Database_perf_test/patricia.c:734-752 | the length of the longest common bit prefix, capped at check_bit; the inner search always finds a set bit |
| Bits.KeysAgreeByOctets | Programming/Database_perf_test/patricia.c:54-58 | agreement on len bits is agreement on whole octets and on the leading bits of the next |
| Bits.MasksAreShifts | Programming/Database_perf_test/patricia.c:56-58 | the masks of single and of leading bits are 0x80 >> j and 0xFF << (8 - r) |
| Bits.OctetDigits | Programming/Database_perf_test/patricia.c:740-746 | bit j of an octet, tested with 0x80 >> j, is binary digit 7 - j of its number |
| Bits.KeyIsLeadingPart | Programming/Database_perf_test/patricia.c:50-62 | the first len bits, read as a number, are the address divided by the power of two for the other bits |
| Bits.PrefixByNumber | Programming/Database_perf_test/patricia.c:633-652 | one key covers another exactly if it is no longer and equals the leading part of the other address as a number |
| Prefixes.Prefix.New | Programming/Database_perf_test/patricia.c:221-270 | a heap prefix starts with one reference; a negative length means the whole address |
| Prefixes.Prefix.Ref | Programming/Database_perf_test/patricia.c:344-356 | a heap prefix gains a reference, a static one is copied |
| Prefixes.Prefix.Deref | Programming/Database_perf_test/patricia.c:358-372 | loses a reference and is released exactly with the last one |
| Walks.Walk | Programming/Database_perf_test/patricia.h:107-145 | the explicit-stack walk equals the recursive preorder: every stored node exactly once, in lexicographic order of keys, within PATRICIA_MAXBITS + 1 stack slots |
| Walks.WalkStep | Programming/Database_perf_test/patricia.h:131-145 | one step keeps visited, current and waiting nodes in preorder; the stack holds at most maxbits nodes |
| Walks.WalkStack | Programming/Database_perf_test/patricia.h:131-145 | waiting nodes are right siblings below ever deeper ancestors of the current node |
| Walks.Advance | Programming/Database_perf_test/patricia.h:131-144 | the next node and stack are those of the recursive order, and array accesses stay in range |
| Walks.WalkInorder | Programming/Database_perf_test/patricia.c:469-489 | visits exactly the stored nodes at or below the given one, from left to right: of two nodes the first has a 0 where they part, or lies left below the other, or has the other right below it; returns their number |
| Walks.InorderCountsKeys | Programming/Database_perf_test/patricia.c:469-489 | on a non-empty trie the number is the number of keys, and each stored node is visited once |
| Walks.ActiveNodes | Programming/Database_perf_test/patricia.c:663-979 | num_active_node is the number of nodes in use, at least k and at most 2k - 1 for k keys, and the trie is empty exactly if k is 0 |
| Walks.Clear | Programming/Database_perf_test/patricia.c:401-442 | every node is released exactly once, in preorder and not used afterwards, every stored prefix loses one reference, func gets each stored non-null datum once, and the counter ends at 0 |
| Walks.Release | Programming/Database_perf_test/patricia.c:412-424 | releasing one node gives its prefix's reference back and touches no other |
| Walks.DataOfMember | Programming/Database_perf_test/patricia.c:412-424 | func is called on a datum exactly if a stored node has it |
| Walks.DataOfCount | Programming/Database_perf_test/patricia.c:412-424 | func is called as often as there are stored nodes with a datum |
| Traversal.PreorderMembers | Programming/Database_perf_test/patricia.h:107-145 | the nodes below a node are exactly those whose bits extend its bits |
| Traversal.PreorderAscends | Programming/Database_perf_test/patricia.h:107-145 | preorder is lexicographic order, a prefix before its extensions |
| Traversal.PreorderAll | Programming/Database_perf_test/patricia.h:107-145 | from the head, preorder lists every node in use exactly once |
| Traversal.PrecedesTotal | Programming/Database_perf_test/patricia.h:107-145 | of two different keys one precedes the other |
| Traversal.PrecedesIsNumeric | Programming/Database_perf_test/patricia.h:107-145 | among keys of one length lexicographic order is the order of their numbers |
| Traversal.KeysCounted | Programming/Database_perf_test/patricia.c:469-489 | the stored nodes met are as many as the keys |
| Traversal.GlueBound | Programming/Database_perf_test/patricia.c:838-871 | below any node there are fewer glue nodes than stored ones |
| Traversal.NodeBound | Programming/Database_perf_test/patricia.c:838-871 | k >= 1 keys take at most 2k - 1 nodes |
| Traversal.InorderStored | Programming/Database_perf_test/patricia.c:469-489 | inorder and preorder list the same stored nodes |
| Traversal.InorderOrdered | Programming/Database_perf_test/patricia.c:469-489 | the recursive inorder goes from left to right |
| Traversal.InorderMembers | Programming/Database_perf_test/patricia.c:469-489 | inorder meets exactly the stored nodes whose bits extend those of the start |
| Ascii.InetPton | Programming/Database_perf_test/patricia.c:104-142 | accepts exactly the dotted lists of one to four digit strings with values up to 255, returns these values with missing low octets zero, and its buffer index stays in range |
| Ascii.ReadOctet | Programming/Database_perf_test/patricia.c:112-121 | reads the longest run of digits, or stops as soon as the value exceeds 255 |
| Ascii.ValueConcat | Programming/Database_perf_test/patricia.c:112-121 | digit strings are decimal numbers: appending digits multiplies by the power of ten |
| Ascii.ParsedIsDotted | Programming/Database_perf_test/patricia.c:111-129 | an accepted text is a dotted list of digit strings with the values returned |
| Ascii.DottedIsParsed | Programming/Database_perf_test/patricia.c:111-129 | every dotted list of non-empty digit strings up to 255 is accepted, with the values of its parts |
| Ascii.Ascii2Prefix | Programming/Database_perf_test/patricia.c:274-342 | accepted exactly if one to four numbers up to 255 stand before the first slash, which are then the octets, missing low ones zero; without a slash the length is 32; behind one it is the signed decimal number there, after any spaces, if that is 0 to 32, else 32, and 0 without a number |
| Ascii.ReadHost | Programming/Database_perf_test/patricia.c:318-325 | a dotted text without slash is a host: length 32 |
| Ascii.ReadSlashed | Programming/Database_perf_test/patricia.c:306-325 | address before the slash, length behind it |
| Ascii.ParseFormat | Programming/Database_perf_test/patricia.c:176-187 | reading a written address gives it back |
| Ascii.RoundTrip | Programming/Database_perf_test/patricia.c:149-202 | the text written for an address and a length 0 to 32 reads back as both |
| Ascii.WriteAndRead | Programming/Database_perf_test/patricia.c:149-342 | ascii2prefix after prefix_toa2x is the identity for all addresses and lengths 0 to 32 |
| OrChannel.Channels | Programming/concurrency-in-go-src/concurrency-patterns-in-go/the-or-channel/fig-or-channel.go:28-34 | each level of recursion gets two channels fewer, so the recursion ends |
| OrChannel.PassedIsAwaited | Programming/concurrency-in-go-src/concurrency-patterns-in-go/the-or-channel/fig-or-channel.go:23-34 | every channel passed down is waited for at some level |
| OrChannel.StepKeepsInv | Programming/concurrency-in-go-src/concurrency-patterns-in-go/the-or-channel/fig-or-channel.go:10-38 | every step of the environment or of a goroutine keeps the invariant |
| OrChannel.NoEarlyClose | Programming/concurrency-in-go-src/concurrency-patterns-in-go/the-or-channel/fig-or-channel.go:18-36 | in no run does an orDone channel close before an input was closed or delivered a value |
| OrChannel.SpreadsUp | Programming/concurrency-in-go-src/concurrency-patterns-in-go/the-or-channel/fig-or-channel.go:29-34 | at rest, a closed level closes every level above it |
| OrChannel.SpreadsDown | Programming/concurrency-in-go-src/concurrency-patterns-in-go/the-or-channel/fig-or-channel.go:29-34 | at rest, a closed level closes every level below it |
| OrChannel.AllClose | Programming/concurrency-in-go-src/concurrency-patterns-in-go/the-or-channel/fig-or-channel.go:18-36 | once an input has fired, every quiescent state of every run has all orDone channels closed and all goroutines gone |
| OrChannel.InternalRunsEnd | Programming/concurrency-in-go-src/concurrency-patterns-in-go/the-or-channel/fig-or-channel.go:18-36 | goroutines can take only boundedly many steps by themselves, so that quiescence is reached |
| OrChannel.ToRest | Programming/concurrency-in-go-src/concurrency-patterns-in-go/the-or-channel/fig-or-channel.go:18-36 | from every state the goroutines can run on to a quiescent one |
| OrChannel.OneInputClosesAll | Programming/concurrency-in-go-src/concurrency-patterns-in-go/the-or-channel/fig-or-channel.go:10-38 | for each input there is a run in which only that input is closed and every level exits |
| FanIn.StepKeepsInv | Programming/concurrency-in-go-src/concurrency-patterns-in-go/fan-out-fan-in/fig-fan-out-naive-prime-finder.go:90-114 | every step keeps per-input order, the WaitGroup count and the state of the output |
| FanIn.OutputInterleavesPrefixes | Programming/concurrency-in-go-src/concurrency-patterns-in-go/fan-out-fan-in/fig-fan-out-naive-prime-finder.go:93-102 | in every run each value of the output comes from one of the n inputs, the output restricted to one input is a prefix of that input with at most one value missing, none if its multiplexer ended normally, and values are given up only after done |
| FanIn.OutputConserved | Programming/concurrency-in-go-src/concurrency-patterns-in-go/fan-out-fan-in/fig-fan-out-naive-prime-finder.go:93-102 | in every run the length of the output is the sum over the inputs of what came through from them |
| FanIn.ClosedOnceAndLast | Programming/concurrency-in-go-src/concurrency-patterns-in-go/fan-out-fan-in/fig-fan-out-naive-prime-finder.go:104-114 | the output is closed at most once and only after all multiplexers returned; nothing is sent afterwards and the WaitGroup never goes negative |
| FanIn.RestsClosedIff | Programming/concurrency-in-go-src/concurrency-patterns-in-go/fan-out-fan-in/fig-fan-out-naive-prime-finder.go:93-114 | a run that has come to rest has closed its output exactly if every input was closed or has handed over a value that the consumer did not get |
| FanIn.InternalRunsEnd | Programming/concurrency-in-go-src/concurrency-patterns-in-go/fan-out-fan-in/fig-fan-out-naive-prime-finder.go:93-114 | without producers the goroutines can take only boundedly many steps, so that rest is reached |
| FanIn.ToRest | Programming/concurrency-in-go-src/concurrency-patterns-in-go/fan-out-fan-in/fig-fan-out-naive-prime-finder.go:93-114 | from every state the goroutines can run on to a quiescent one |
| FanIn.RestsOpen | Programming/concurrency-in-go-src/concurrency-patterns-in-go/fan-out-fan-in/fig-fan-out-naive-prime-finder.go:93-102 | at rest with done open the consumer has everything handed over, and every open input can hand over its next value |
| FanIn.NextValueArrives | Programming/concurrency-in-go-src/concurrency-patterns-in-go/fan-out-fan-in/fig-fan-out-naive-prime-finder.go:93-102 | at rest with done open the next value of an open input reaches the consumer |
| FanIn.DoneAloneDoesNotClose | Programming/concurrency-in-go-src/concurrency-patterns-in-go/fan-out-fan-in/fig-fan-out-naive-prime-finder.go:95-101 | closing done alone does not close the output: a multiplexer in its range loop does not look at it |
| Steward.StepKeepsInv | Programming/concurrency-in-go-src/concurrency-at-scale/healing-unhealthy-goroutines/fig-example-steward-usage.go:54-89 | every step keeps the invariant of the steward |
| Steward.OneOpenWard | Programming/concurrency-in-go-src/concurrency-at-scale/healing-unhealthy-goroutines/fig-example-steward-usage.go:57-83 | in every run at most the newest ward has an open wardDone, and it has one except between the close and the restart; none is closed twice, wards are restarts plus one, and heartbeat is closed exactly after the return |
| Steward.NoNeedlessCancel | Programming/concurrency-in-go-src/concurrency-at-scale/healing-unhealthy-goroutines/fig-example-steward-usage.go:59-83 | a ward is cancelled only if it was or is being replaced or done was closed |
| Steward.GapBetweenWards | Programming/concurrency-in-go-src/concurrency-at-scale/healing-unhealthy-goroutines/fig-example-steward-usage.go:79-83 | a reachable state with done open in which the only ward has been cancelled and not replaced |
| Steward.RestartsFromStart | Programming/concurrency-in-go-src/concurrency-at-scale/healing-unhealthy-goroutines/fig-example-steward-usage.go:75-83 | in every run restarts are the timeouts noticed, less one between a timeout and its restart; a pulse of the ward restarts nothing |
| Steward.StewardGoesOn | Programming/concurrency-in-go-src/concurrency-at-scale/healing-unhealthy-goroutines/fig-example-steward-usage.go:54-89 | in every reachable state the steward can take the step that its code has next; at the select it listens to all four channels |
| Steward.CanReturn | Programming/concurrency-in-go-src/concurrency-at-scale/healing-unhealthy-goroutines/fig-example-steward-usage.go:84-86 | once done is closed the steward can return within four steps of its own |
| Steward.ReturnCancelsAll | Programming/concurrency-in-go-src/concurrency-at-scale/healing-unhealthy-goroutines/fig-example-steward-usage.go:84-86 | after the return every ward ever started has a closed cancel source, and at rest is cancelled |
| Steward.ReturnIsFinal | Programming/concurrency-in-go-src/concurrency-at-scale/healing-unhealthy-goroutines/fig-example-steward-usage.go:54-86 | after the return nothing is sent on heartbeat and no ward is started |
| CondQueue.Shared.Insert | Programming/Advanced Linux System & Network Programming Examples/alsp/src/8.pthread/pthread_cond.c:119-132 | inserts the part of the batch before a newline while there is room, starting at the read index, and reports whether the queue was empty |
| CondQueue.Shared.Take | Programming/Advanced Linux System & Network Programming Examples/alsp/src/8.pthread/pthread_cond.c:179-183 | takes the first pending item; the others stay in order |
| CondQueue.AcceptedBound | Programming/Advanced Linux System & Network Programming Examples/alsp/src/8.pthread/pthread_cond.c:121-132 | what is inserted is a prefix of the batch, stops exactly at a newline or a full queue, and never overfills it |
| CondQueue.EmptyQueueIsFifo | Programming/Advanced Linux System & Network Programming Examples/alsp/src/8.pthread/pthread_cond.c:119-132 | a batch that meets an empty queue is taken out in order |
| CondQueue.FifoIff | Programming/Advanced Linux System & Network Programming Examples/alsp/src/8.pthread/pthread_cond.c:119-132 | inserting m items on c pending ones appends them for all contents exactly if c or m is 0 |
| CondQueue.TwoBatches | Programming/Advanced Linux System & Network Programming Examples/alsp/src/8.pthread/pthread_cond.c:55-132 | after two batches on a new queue the second one is pending, then the rest of the first, then zeros |
| CondQueue.FifoFails | Programming/Advanced Linux System & Network Programming Examples/alsp/src/8.pthread/pthread_cond.c:119-132 | on a new queue, of two items inserted one after the other a consumer gets the second and then a zero |
| CondQueue.StepKeepsInv | Programming/Advanced Linux System & Network Programming Examples/alsp/src/8.pthread/pthread_cond.c:103-194 | every step of producer, consumers or a spurious wakeup keeps the invariant |
| CondQueue.NoLostWakeup | Programming/Advanced Linux System & Network Programming Examples/alsp/src/8.pthread/pthread_cond.c:103-194 | in every run with any number of consumers: cnt is inserted minus consumed and within 0 to MAX_Q_SIZE, the mutex has one holder, and a consumer that waits unsignalled while there are items is owed a broadcast |
| CondQueue.NothingStranded | Programming/Advanced Linux System & Network Programming Examples/alsp/src/8.pthread/pthread_cond.c:103-194 | when the producer waits for input and no consumer can move, the queue is empty |
| CondQueue.InsertIsAStep | Programming/Advanced Linux System & Network Programming Examples/alsp/src/8.pthread/pthread_cond.c:119-132 | under the lock the producer can insert exactly what the code accepts of any batch |
| CondQueue.LockIsGranted | Programming/Advanced Linux System & Network Programming Examples/alsp/src/8.pthread/pthread_cond.c:103-194 | the producer can get the mutex or its holder can go on, and with the mutex the producer can go on |
| PrefixGen.GeneratePrefix | Programming/python_test/net_emulator/generate_prefix.py:84-205 | the counter is the smaller of numPrefix, but at least 1, and the number of prefixes there are, 2^24 - 1 for each first octet; line j is line j of the enumeration by length and address; lines go to the file unless it is a dry run, and to the terminal if asked; without a file nothing is counted |
| PrefixGen.IPstat.Print | Programming/python_test/net_emulator/generate_prefix.py:22-66 | counts while fewer than the limit have been counted, writes unless it is a dry run, and only complains without a file |
| PrefixGen.Layer1 | Programming/python_test/net_emulator/generate_prefix.py:136-205 | the loop over first octets completes the block of one length, up to the limit |
| PrefixGen.Layer2 | Programming/python_test/net_emulator/generate_prefix.py:146-201 | the loop over second octets covers exactly the addresses of one first octet |
| PrefixGen.Layer3 | Programming/python_test/net_emulator/generate_prefix.py:164-197 | the loop over third octets covers exactly the addresses of two leading octets |
| PrefixGen.Layer4 | Programming/python_test/net_emulator/generate_prefix.py:180-193 | the loop over last octets covers exactly the addresses of three leading octets |
| PrefixGen.LengthGeometry | Programming/python_test/net_emulator/generate_prefix.py:126-131 | the step of the octet that a length cuts is the distance of neighbouring prefixes of that length |
| PrefixGen.EnumerationSize | Programming/python_test/net_emulator/generate_prefix.py:120-131 | there are 2^24 - 1 prefixes of lengths 8 to 31 for each first octet |
| PrefixGen.EnumerationTotal | Programming/python_test/net_emulator/generate_prefix.py:120-131 | the whole enumeration has 2^24 - 1 lines for each first octet |
| PrefixGen.EnumerationPlaced | Programming/python_test/net_emulator/generate_prefix.py:120-131 | every line has length 8 to 31, octets in range and zero host bits |
| PrefixGen.EnumerationOrdered | Programming/python_test/net_emulator/generate_prefix.py:120-131 | lines ascend by length and address, so none is repeated |
| PrefixGen.AddressOrder | Programming/python_test/net_emulator/generate_prefix.py:136-205 | addresses compare octet by octet |
| PrefixGen.EnumerationComplete | Programming/python_test/net_emulator/generate_prefix.py:120-131 | no prefix of lengths 8 to 31 with a first octet in range is left out |
| Bgpsec.Verify | Programming/openssl_util_code/bgpsec_openssl-VariousKeyManipulation.c:827-1057 | success exactly if the attribute is sane and, for every turn k the loop takes, signature k verifies with its key over target AS (local for k = 0, else that of segment k - 1), signer, pCount, flags and the next signature, or for the origin the algorithm and the prefix; memory is left exactly if all turns before one that is not safe went well |
| Bgpsec.FillBuffer | Programming/openssl_util_code/bgpsec_openssl-VariousKeyManipulation.c:867-993 | in a safe turn the buffer holds exactly the octets under signature k, within its size |
| Bgpsec.OctetPositions | Programming/openssl_util_code/bgpsec_openssl-VariousKeyManipulation.c:882-993 | octets 0 to 3 under signature k are the target AS in network byte order (local_as for k = 0, else the AS of segment k - 1), 4 to 7 the signer, 8 pCount, 9 flags, then the next signature or, for the origin, algorithm, prefix length and prefix |
| Bgpsec.HopLaw | Programming/openssl_util_code/bgpsec_openssl-VariousKeyManipulation.c:959-960 | target ASes are chained: signature k + 1 verifies exactly if signature k does in the update one hop back, where the first signer is the local AS |
| Bgpsec.AcceptedByHops | Programming/openssl_util_code/bgpsec_openssl-VariousKeyManipulation.c:862-1054 | an update is accepted exactly if its first signature verifies and it is accepted one hop back |
| Bgpsec.KeyOfTurn | Programming/openssl_util_code/bgpsec_openssl-VariousKeyManipulation.c:929-1034 | with a key array of full length, signature k is checked with key k if there is one and by its SKI otherwise; for the origin the presence of key 0 decides |
| Bgpsec.NoKeyOfTurn | Programming/openssl_util_code/bgpsec_openssl-VariousKeyManipulation.c:931-1050 | without keys every signature is checked by its SKI |
| Bgpsec.AnnouncedSegments | Programming/openssl_util_code/bgpsec_openssl-VariousKeyManipulation.c:855-857 | n segments are announced by 2 + 6 n octets, and a remainder is dropped |
| Bgpsec.FullChain | Programming/openssl_util_code/bgpsec_openssl-VariousKeyManipulation.c:862-1054 | if both lists have the announced length, success is verification of every signature |
| Bgpsec.ShortSignaturesRejected | Programming/openssl_util_code/bgpsec_openssl-VariousKeyManipulation.c:890-894 | a signature list shorter than announced and no longer than the path is rejected |
| Bgpsec.SoundIff | Programming/openssl_util_code/bgpsec_openssl-VariousKeyManipulation.c:862-1056 | success means, for every signature scheme, that both lists have the announced length and every signature verifies, exactly if the path list has that length, or is no shorter than the signature list, or the call leaves memory |
| Bgpsec.AcceptedWithoutOrigin | Programming/openssl_util_code/bgpsec_openssl-VariousKeyManipulation.c:862-1056 | an accepted update with one path segment where two are announced, under a scheme that rejects the signature of the origin |
| Bgpsec.NothingAnnounced | Programming/openssl_util_code/bgpsec_openssl-VariousKeyManipulation.c:855-862 | if no segment is announced, exactly what passes the sanity check is accepted |
| Bgpsec.FaultsIff | Programming/openssl_util_code/bgpsec_openssl-VariousKeyManipulation.c:890-1020 | memory is left for some signature scheme exactly if a null or over-long signature or prefix is to be copied or the key array is too short |
| Bgpsec.SafeCall | Programming/openssl_util_code/bgpsec_openssl-VariousKeyManipulation.c:890-1020 | for a chain of full length no turn leaves memory exactly if all later signatures and the prefix are there and fit the buffer and there is a key for each segment, or no array |
| Bgpsec.OriginNotReached | Programming/openssl_util_code/bgpsec_openssl-VariousKeyManipulation.c:862-862 | if a list is shorter than announced, or nothing is announced, the prefix has no say in success or fault |
| Bgpsec.PrefixMattersIff | Programming/openssl_util_code/bgpsec_openssl-VariousKeyManipulation.c:862-1056 | for some signature scheme and large enough buffer the verdict depends on the prefix exactly if at least one segment is announced and both lists are that long |

## Left out

- IPv6 branches, `inet_pton`, `inet_ntop` and debug printing of patricia.c; the trie itself is generic in the width of addresses up to 128 bits.
- The static ring of print buffers in prefix_toa2x: the text is a value.
- The field `user1` of trie nodes, which no function touches.
- `New_Prefix2` on caller-supplied storage, and overflow of the 32-bit reference count.
- `Destroy_Patricia` and the counter of tries; after `Clear_Patricia` a trie is not used again, since its head is not reset.
- Walks.Walk: the macro body is a list of the nodes visited; PATRICIA_WALK_BREAK is not modelled.
- Patricia.Tree.Remove: a freed node leaves the set of nodes in use after it is unlinked; the code frees it a few statements earlier and uses only its pointer value in between.
- Client.Run: begins with parsed prefixes, of any width; Client.RunTexts begins with texts, for IPv4.
- Patricia.Tree.SetData: setting data on a glue node, which no function of the trie returns, is not modelled.
- Ascii.Ascii2Prefix: `atol` is modelled on numbers that do not overflow.
- Ascii.InetPton: which of 0 and -1 a rejected text yields is not stated; its caller treats them alike.
- Real time in the steward: ticks and timeouts are steps that may be taken at any time.
- OrChannel.AllClose: fairness of the scheduler is not modelled; the claim is about states in which no goroutine can move, and OrChannel.InternalRunsEnd bounds the way there.
- FanIn.RestsClosedIff: the same, with FanIn.InternalRunsEnd; the consumer is taken to keep receiving.
- CondQueue.NoLostWakeup: the build that signals instead of broadcasting has one consumer, for which both are the same; the pipe that feeds the producer is not modelled.
- PrefixGen.GeneratePrefix: the text of a line beyond address and length (mode and next hop) is not modelled, and what is written is a list of lines.
- Bgpsec.Verify: digest and ECDSA are parameters, and the number of keys is the length of the key array; constants of headers that are not part of the repository (segment size 6, length field 2, network byte order of put_u32) are fixed as the code comments give them, and BGPSEC_MAX_SIG_LENGTH is a parameter.
- Key loading, DER conversion and the key registry of the BGPsec code, and the signing functions: wrappers over libraries.
- The remaining examples of the repository (sockets, signals, scripts, notes, timing code): plumbing, or easy next to the above.
