# A verified model of the MRD key-value server

The repository is a small server in the manner of Redis: string values and sorted sets under keys, a lifetime for every
key, a framed byte protocol, and a client. This project models its storage engine and its protocol, and proves what each
operation does to the data it owns, what every operation keeps, and what holds over whole runs and over every way of
cutting the byte stream into reads.

| file | models |
|---|---|
| `tree.dfy` (`Shape`) | trees and paths as values: the rotations, the climb and the removal, and what they keep |
| `avl.dfy` (`Avl`) | the intrusive AVL tree: nodes with parent links, cached heights and counts, changed in place |
| `walk.dfy` (`Walk`) | the walks over the tree: offset, rank, successor, predecessor, and the height bound |
| `order.dfy` (`Order`) | the order of the elements, and the one sorted view that a map has |
| `hash.dfy`, `hashtable.dfy`, `hashmap.dfy` | the string hash, the chained table, the incrementally rehashing map |
| `zset.dfy` (`ZSets`) | the sorted set: the same node objects in the tree and in the hash map |
| `entries.dfy`, `heap.dfy`, `keyspace.dfy` | the entries, the deadline heap with back-references, the keyspace |
| `buffer.dfy`, `codec.dfy` | the byte queue, the tag-length-value encoding, the request encoder and parser |
| `spec.dfy`, `commands.dfy` | the commands as transitions of an abstract state |
| `answers.dfy` | what each command answers and does, in elementary terms |
| `query.dfy`, `server.dfy` | the request handlers, writing their replies into the buffer |
| `framing.dfy`, `connection.dfy` | frames, responses, one connection, and independence from chunking |
| `mainloop.dfy` | the main loop over several connections, timer ticks and room for sending |
| `client.dfy` | the client's decoder, and how it reads a response |
| `conversation.dfy` | a client and the server together, and the bytes they exchange |
| `runs.dfy` | whole runs of requests and timer ticks |

`sequences.dfy` and `bytes.dfy` hold facts and types that the others share.

How the parts fit together: an in-place tree operation is proved to leave the heap in the shape that a function on trees
gives (`Avl.Fix` and `Shape.FixUp`, `Avl.Del` and `Shape.Remove`), and the lemmas about that function say what the source
promises: balance, order, exact caches, the same node objects. A sorted set stands for a map from names to scores, and
the tree lists that map in the one order there is (`Order.RankingUnique`). A keyspace stands for a `State`, a map from
keys to values with deadlines; every handler ends in the state, and writes the bytes of the reply, that the command has
in `spec.dfy`. What that means is said in `answers.dfy` without the functions of `spec.dfy`, in terms of keys, values,
deadlines and places in the sorted view. `Connections.HandleRead` composes the handlers along a byte stream,
`MainLoops.MainLoop` interleaves any number of such streams with timer ticks and with bytes leaving the queues, and what
it does is a run in the sense of `runs.dfy`, which reasons about all sequences of steps: the very run that the inputs
schedule. `Conversations.EachIsAnswered` follows one client through all of this.

Parameters of the model: the time at each request and tick; the C++ library's number parsers and the bytes of a double
(`Spec.Library`); the work budget and load factor of the hash map. A score is a real number, so that the order is total;
integers and sizes are unbounded except where a width decides something (lengths on the wire, 64-bit integers in replies,
the wrap of an emptied buffer's length, the 32-bit sums in the client).

Where the code does something else than it seems to intend, the model does what the code does:

- `rank` stops at the first left edge: `Walk.RankMeaning` says what it computes, and exactly when that is the rank;
  `Servers.RankGoesWrong` inserts four elements into a set and gets a wrong one.
- The hash map grows once, to a table of two slots, and the drained table is never released, so that the load factor is
  kept only under the condition of `HashMaps.HashMap.LoadKept`; `HashMaps.Overload` breaks it. It is a correct map all
  the same.
- A response longer than MAX_MSG is not sent as it should be: `Connections.ResponseEnd` is right exactly for the others,
  and `Runs.LongReplyCanHappen` gets one.
- TTL answers with the deadline, which is the time left only at time 0 (`Runs.TtlAnswer`), and reads outside the heap for
  a key without a deadline; a request without words and a ZCOUNT whose bounds are no numbers end the process:
  `Runs.OnlyFatalRequestsCrash` says that nothing else does, and `Runs.TtlCanCrash`, `Runs.EmptyRequestCrashes` and
  `Runs.ZCountCanCrash` reach each of the three.
- The client returns wrong lengths for nil and for errors: `Client.ClientShows`.
- A queue from which more is consumed than it holds is sound only by chance: `Buffers.Buffer.Consume`.
- ZREM answers 1 whether or not there was something to remove (`Runs.ZRemAnswer`), and ZQUERYLE, ZCOUNT and ZRANK call
  themselves "zqueryge" in their errors.

## Model

| member | source | states |
|---|---|---|
| Avl.Update | shared/src/MRD_avl.cpp:13-16 | with exact subtrees below it, a node's caches become exact |
| Avl.RotLeft | shared/src/MRD_avl.cpp:148-165 | the pointer rotation leaves the rotated tree, all links mutual and all caches exact, below the old parent |
| Avl.RotRight | shared/src/MRD_avl.cpp:167-184 | the same to the other side |
| Avl.FixLeftAt | shared/src/MRD_avl.cpp:186-191 | the single or double rotation for a left half that is two too high, on the heap |
| Avl.FixRightAt | shared/src/MRD_avl.cpp:193-198 | the same to the other side |
| Avl.RebalanceAt | shared/src/MRD_avl.cpp:50-57 | refreshing and rotating at one node gives the rebalanced subtree with exact caches |
| Avl.Relink | shared/src/MRD_avl.cpp:46-57 | storing the new top in the link that led to the node keeps the whole path above it linked |
| Avl.Fix | shared/src/MRD_avl.cpp:44-63 | the climb ends with every link mutual, every height and count exact, the true root returned, and the shape `FixUp`, in as many turns as there are ancestors plus one |
| Shape.FixUpInOrder | shared/src/MRD_avl.cpp:44-63 | the climb keeps the in-order sequence of node objects, whatever it rotates |
| Shape.FixUpBalanced | shared/src/MRD_avl.cpp:44-63 | after one subtree has been perturbed by one change of height, the climb ends in an AVL-balanced tree |
| Shape.FixUpRests | shared/src/MRD_avl.cpp:44-63 | where nothing is out of balance, the climb changes nothing |
| Shape.RebalancePerturbed | shared/src/MRD_avl.cpp:186-198 | one single or double rotation restores balance and changes the height by at most one |
| Avl.DelEasy | shared/src/MRD_avl.cpp:200-211 | a node with at most one child is unlinked and the tree above it is repaired, on the heap |
| Avl.Del | shared/src/MRD_avl.cpp:18-42 | deletion, with the victim taking over links copied after the climb may have moved the node, leaves exactly the tree `Remove` |
| Avl.TakeOver | shared/src/MRD_avl.cpp:28-41 | the victim takes the place of the node, wherever that is, and nothing else changes |
| Shape.RemoveInOrder | shared/src/MRD_avl.cpp:18-42 | the in-order sequence after deletion is the old one without exactly that node object |
| Shape.RemoveBalanced | shared/src/MRD_avl.cpp:18-42 | deletion keeps the tree balanced |
| Shape.RemoveDistinct | shared/src/MRD_avl.cpp:18-42 | deletion keeps every other node object, once |
| Walk.Offset | shared/src/MRD_avl.cpp:121-146 | from in-order position i, the node at i + offset, or null exactly when that is outside, within twice the height of the tree in steps |
| Walk.Rank | shared/src/MRD_avl.cpp:107-119 | the position inside the subtree on top of the run of right-child links above the node |
| Walk.RankMeaning | shared/src/MRD_avl.cpp:107-119 | that position never exceeds the global one and equals it if and only if no ancestor above the run is a right child |
| Walk.RankIsNotGlobal | shared/src/MRD_avl.cpp:113 | a balanced tree of four nodes where the third is ranked first |
| Walk.Successor | shared/src/MRD_avl.cpp:73-88 | the next node in order, or null at the end |
| Walk.Predecessor | shared/src/MRD_avl.cpp:90-105 | the previous node in order, or null at the beginning |
| Walk.BalancedIsFull | shared/src/MRD_avl.cpp:13-16 | a balanced tree of height h has at least fib(h + 2) - 1 nodes |
| Walk.LogarithmicHeight | shared/src/MRD_avl.cpp:44-63 | the height is at most about twice the logarithm of the count |
| Order.ZLessMeaning | shared/src/MRD_zset.cpp:188-202 | the comparison is: by score, then by the dictionary order of the names, said without memcmp |
| Order.ZLessTotal | shared/src/MRD_zset.cpp:188-209 | the order is total and antisymmetric, and `zgreater` is its converse |
| Order.ZLessTransitive | shared/src/MRD_zset.cpp:188-195 | the order is transitive |
| Order.RankingUnique | shared/src/MRD_zset.cpp:67-78 | a map has only one sorted listing, whatever shape the tree has |
| Hash.StrHash | shared/include/MRD_utility.h:179-185 | the loop computes the 32-bit hash of the bytes |
| Hash.HashConcat | shared/include/MRD_utility.h:179-185 | the hash of a string goes on from the hash of its beginning |
| Hash.HashSamples | shared/include/MRD_utility.h:179-185 | the hashes of three short strings, as numbers |
| HashTable.HTab.Init | shared/src/MRD_hashtable.cpp:13-17 | a table of empty slots |
| HashTable.MaskIsRemainder | shared/src/MRD_hashtable.cpp:19-25 | in a table of a power of two slots, the slot is the remainder of the hash code |
| HashTable.HTab.Insert | shared/src/MRD_hashtable.cpp:19-25 | the node heads the chain of slot `hcode & mask`, and every chain is otherwise what it was |
| HashTable.HTab.Lookup | shared/src/MRD_hashtable.cpp:46-58 | the incoming link of the node with this hash code and key, none if and only if there is no such node |
| HashTable.HTab.Detach | shared/src/MRD_hashtable.cpp:60-65 | unlinking through the incoming link removes exactly that node from its chain |
| HashTable.HTab.ForEach | shared/src/MRD_hashtable.cpp:67-76 | every node is visited once until one is refused, and none in a table of one slot |
| HashTable.HTab.Clear | shared/src/MRD_hashtable.cpp:78-83 | back to the zombie table |
| HashMaps.HashMap.HelpRehashing | shared/src/MRD_hashtable.cpp:91-107 | a round moves as many nodes as the budget allows and no more, never indexes past the older table, and keeps the map and the drained prefix |
| HashMaps.HashMap.MigrationEnds | shared/src/MRD_hashtable.cpp:91-107 | a migration of n nodes is over after exactly as many rounds as budgets are needed for n, and every earlier round leaves its whole budget less |
| HashMaps.HashMap.MigrateOne | shared/src/MRD_hashtable.cpp:95-101 | one node changes tables, the set of nodes stays |
| HashMaps.HashMap.TriggerRehashing | shared/src/MRD_hashtable.cpp:108-113 | the newer table becomes the older one, and the new one has two slots |
| HashMaps.HashMap.GrowIfLoaded | shared/src/MRD_hashtable.cpp:136-141 | migration starts exactly when the load factor is reached |
| HashMaps.HashMap.Lookup | shared/src/MRD_hashtable.cpp:114-124 | in every state of migration, the value of the map or null exactly when the key is absent |
| HashMaps.HashMap.Insert | shared/src/MRD_hashtable.cpp:131-143 | adds exactly one key to the map, in every state of migration; when migration starts and how far it gets |
| HashMaps.HashMap.LoadKept | shared/src/MRD_hashtable.cpp:103-113 | the newer table stays below the load factor if and only if there has been no migration, or fewer nodes have been moved than the load factor allows two slots |
| HashMaps.Overload | shared/src/MRD_hashtable.cpp:131-143 | where it fails: for every load factor and every budget of at least four times as much, the insert that starts the migration leaves all nodes in two slots |
| HashMaps.HashMap.Erase | shared/src/MRD_hashtable.cpp:146-155 | removes exactly that key from the map and returns its node, or changes nothing; before, the migration gets one round further |
| HashMaps.HashMap.ForEach | shared/src/MRD_hashtable.cpp:126-129 | in every reachable map every node is visited exactly once, unless one is refused |
| HashMaps.HashMap.Size | shared/src/MRD_hashtable.cpp:162-164 | the number of nodes in both tables |
| HashMaps.HashMap.Clear | shared/src/MRD_hashtable.cpp:156-160 | the empty map, without tables |
| ZSets.ZSet.FindPlace | shared/src/MRD_zset.cpp:115-119 | the walk ends at the one leaf position that the comparisons on the way lead to and that keeps the order, after at most the height of the tree in steps |
| ZSets.ZSet.TreeInsert | shared/src/MRD_zset.cpp:114-124 | the tree stays a sorted, balanced, counted AVL tree over the old node objects and the new one, in the shape that the climb from the new leaf gives |
| ZSets.ZSet.Lookup | shared/src/MRD_zset.cpp:24-33 | the node of a name, which is in the tree, or null exactly when the set has no such name |
| ZSets.ZSet.Del | shared/src/MRD_zset.cpp:35-43 | one node leaves the hash index and the tree, all others stay the same objects |
| ZSets.ZSet.Rem | shared/src/MRD_zset.cpp:80-86 | removes a name from the map; true exactly if it was there |
| ZSets.ZSet.Update | shared/src/MRD_zset.cpp:88-93 | the same node moves to its new place, and the hash index still finds it |
| ZSets.ZSet.Insert | shared/src/MRD_zset.cpp:96-105 | the map gets the name with this score, added or overwritten; true exactly if it is new, and then the tree has the shape that one new leaf and the climb give it |
| ZSets.ZSet.SeekGe | shared/src/MRD_zset.cpp:149-161 | the least node not less than the key, null exactly when there is none, in at most the height of the tree in steps |
| ZSets.ZSet.SeekLe | shared/src/MRD_zset.cpp:163-175 | the greatest node not greater than the key, null exactly when there is none |
| ZSets.ZSet.PathsAreLogarithmic | shared/src/MRD_zset.cpp:114-124 | the height that bounds those loops is logarithmic in the number of elements |
| ZSets.ZSet.Offset | shared/src/MRD_zset.cpp:19-22 | the element so many places further, null from null |
| ZSets.ZSet.Rank | shared/src/MRD_zset.cpp:107-112 | 0 for a name that is not there, otherwise what the climb computes |
| ZSets.SetCpy | shared/src/MRD_zset.cpp:67-74 | inserting the nodes of a tree, parents first, loads their items into the other set |
| ZSets.Copy | shared/src/MRD_zset.cpp:76-78 | a copy stands for the same map and lists the same sequence, though its tree may have another shape |
| Heaps.Heap.Up | shared/src/MRD_heap.cpp:47-56 | from an item too small for its place, heap order and every back-reference restored, no item lost |
| Heaps.Heap.Down | shared/src/MRD_heap.cpp:22-45 | the same from an item too large for its place |
| Heaps.Heap.Update | shared/src/MRD_heap.cpp:58-64 | the same from any violation at one position |
| Heaps.Heap.Erase | shared/src/MRD_heap.cpp:66-72 | exactly the deadline at the position goes, order and back-references hold |
| Heaps.Heap.Upsert | shared/src/MRD_heap.cpp:74-83 | exactly one deadline is set, in the slot the entry names or in a new one |
| Heaps.FirstIsLeast | shared/src/MRD_heap.cpp:22-56 | the first item of an ordered heap is a least one |
| Keyspaces.EntrySetTtl | server/MRD_server.cpp:106-116 | sets or removes the deadline of one entry, in step with the slot the entry knows |
| Keyspaces.Keyspace.DataLookup | server/MRD_server.cpp:293-299 | the entry of a key, null exactly when the state has no such key |
| Keyspaces.Keyspace.EntryDel | server/MRD_server.cpp:82-85 | an entry out of the hash map is forgotten with its deadline, so that nothing refers to it |
| Keyspaces.Keyspace.SlotOf | server/MRD_server.cpp:106-116 | an entry has a deadline exactly when it names a heap slot, and the slot holds that deadline |
| Keyspaces.Keyspace.HeadIsLeast | server/MRD_server.cpp:98-99 | the top of the heap is a least deadline of the state and belongs to the entry its key leads to |
| Keyspaces.Keyspace.ExpireFirst | server/MRD_server.cpp:99-102 | the entry unlinked from the hash map is the very entry at the top of the heap, and the state loses its key |
| Keyspaces.Keyspace.ProcessTimers | server/MRD_server.cpp:97-103 | a tick removes only expired entries, in order of their deadlines, at most MAX_WORKS, and stops early only if none is left; everything else stays |
| Spec.TickCount | server/MRD_server.cpp:97-103 | it removes as many as have expired, or MAX_WORKS if that is less |
| Keyspaces.Keyspace.Put | server/MRD_server.cpp:436-449 | SET on hash map, entries and heap is SET on the state, and the structures stay coherent |
| Keyspaces.Keyspace.Remove | server/MRD_server.cpp:451-463 | DEL likewise |
| Keyspaces.Keyspace.ZAddTo | server/MRD_server.cpp:465-493 | ZADD likewise, a new set getting its deadline before its key |
| Keyspaces.Keyspace.ZRemFrom | server/MRD_server.cpp:495-506 | ZREM likewise |
| Keyspaces.Keyspace.ExpireKey | server/MRD_server.cpp:633-650 | EXPIRE likewise, a negative lifetime removing the deadline |
| Spec.RankingOfRanks | server/MRD_server.cpp:537-549 | the sorted view that the queries are specified by lists the map in order |
| Spec.LowerBoundIs | shared/src/MRD_zset.cpp:149-161 | where the elements that are not less begin |
| Spec.UpperBoundIs | shared/src/MRD_zset.cpp:163-175 | where the elements that are greater begin |
| Queries.DoZQueryGe | server/MRD_server.cpp:537-549 | the bytes written are one array of the sorted elements from the bound plus offset upward, clipped to limit and set, with the exact count and byte count |
| Queries.DoZQueryLe | server/MRD_server.cpp:579-591 | the same downward |
| Queries.CountBetween | server/MRD_server.cpp:621-630 | the loop counts exactly the elements with a score in the closed interval |
| Queries.CountIs | server/MRD_server.cpp:624-629 | the run of elements from the lower bound to the first above the maximum is that set |
| Queries.PairsLength | server/MRD_server.cpp:540-548 | the back-patched count is twice the number of elements |
| Queries.Canonical | server/MRD_server.cpp:537-549 | what the tree lists is the sorted view of the map |
| Buffers.Buffer.Consume | shared/include/MRD_buffer.h:38-45 | drops a prefix; beyond the queued bytes, exactly when the queue stays sound |
| Buffers.Buffer.Append | shared/include/MRD_buffer.h:46-61 | concatenates, through every combination of compaction and growth |
| Buffers.Buffer.Reserve | shared/include/MRD_buffer.h:47-57 | makes room without changing the queued bytes |
| Buffers.Buffer.Resize | shared/include/MRD_buffer.h:92-101 | a larger allocation with the same queued bytes at its start |
| Buffers.Buffer.Patch | shared/include/MRD_utility.h:94 | bytes written relative to the end of the data land in the queue at their own place and nowhere else |
| Codec.FromToLE | shared/include/MRD_buffer.h:71-85 | reading back an integer of k bytes gives the integer |
| Codec.ToFromLE | shared/include/MRD_utility.h:107-114 | any k bytes are the encoding of what they are read as |
| Codec.OutNil | shared/include/MRD_utility.h:54-57 | appends the encoding of nil and returns its length |
| Codec.OutStr | shared/include/MRD_utility.h:58-65 | the same for a string |
| Codec.OutInt | shared/include/MRD_utility.h:69-73 | the same for an integer in 64 bits of two's complement |
| Codec.OutDbl | shared/include/MRD_utility.h:74-78 | the same for the eight bytes of a double |
| Codec.OutErr | shared/include/MRD_utility.h:97-105 | the same for an error |
| Codec.OutBeginArr | shared/include/MRD_utility.h:79-86 | an array header with a count to be filled in |
| Codec.OutEndArr | shared/include/MRD_utility.h:92-96 | the tag is where it is asserted to be, and the count lands on its placeholder, which makes the bytes the encoding of the array |
| Codec.SendReq | client/client.cpp:16-30 | a frame of the encoded words, or nothing exactly when they do not fit a message |
| Codec.ParseReq | server/MRD_server.cpp:119-147 | the cursor-driven parser computes `ParsePayload` |
| Codec.ParseInvertsEncode | server/MRD_server.cpp:119-147 | the parser accepts exactly the encodings of at most MAX_CMDS words, and gives each list back |
| Codec.ReadU32 | shared/include/MRD_utility.h:107-114 | four bytes, or failure without moving the cursor |
| Codec.ReadU8 | shared/include/MRD_utility.h:115-122 | the same for one byte |
| Codec.ReadStr | shared/include/MRD_utility.h:124-131 | the same for n bytes |
| Servers.Server.DoGet | server/MRD_server.cpp:425-434 | the bytes of GET's reply; the assertion fails exactly for a string longer than a message |
| Servers.Server.DoSet | server/MRD_server.cpp:436-449 | the state and the reply bytes of SET |
| Servers.Server.DoDel | server/MRD_server.cpp:451-463 | the state and the reply bytes of DEL |
| Servers.Server.DoZAdd | server/MRD_server.cpp:465-493 | the state and the reply bytes of ZADD, with both kinds of number errors |
| Servers.Server.DoZRem | server/MRD_server.cpp:495-506 | the state and the reply bytes of ZREM |
| Servers.Server.DoZQueryGe | server/MRD_server.cpp:510-550 | the reply bytes of ZQUERYGE, or of its errors in the order they are found |
| Servers.Server.DoZQueryLe | server/MRD_server.cpp:552-592 | the reply bytes of ZQUERYLE |
| Servers.Server.DoZRank | server/MRD_server.cpp:594-609 | the key gets a new lifetime, and the reply is the rank that the climb computes from the element's place in the tree of this set |
| Servers.RankIsAllowed | server/MRD_server.cpp:605 | a rank computed by the climb is between 1 and the element's place in the sorted view |
| Servers.RankIn | server/MRD_server.cpp:605 | the rank of a name is its place in the order less what stands before the top of its run of right-child links |
| Servers.RankGoesWrong | shared/src/MRD_avl.cpp:113 | after four insertions into an empty set, the third element of the sorted view is ranked first |
| Servers.Server.DoZCount | server/MRD_server.cpp:611-631 | the reply bytes of ZCOUNT; the process is lost exactly when a bound is no number |
| Servers.Server.DoExpire | server/MRD_server.cpp:633-650 | the state and the reply bytes of EXPIRE |
| Servers.Server.DoTtl | server/MRD_server.cpp:652-657 | the deadline as a reply; the process is lost exactly when the key has none |
| Servers.EchoWords | server/MRD_server.cpp:659-666 | the words from the second on, each with a blank behind it |
| Servers.Server.DoRequest | server/MRD_server.cpp:152-198 | every request is a step of the abstract state, its reply stands behind what was queued, its length is returned, and only SDIE stops the server |
| Answers.UpperLetters | server/MRD_server.cpp:153-154 | small letters become large ones and no other byte changes |
| Answers.CaseDoesNotMatter | server/MRD_server.cpp:153-154 | two spellings of a command that differ in the case of letters take the same steps |
| Answers.GetAnswers | server/MRD_server.cpp:425-434 | GET changes nothing and answers the string, or the error for no key or for a sorted set |
| Answers.SetAnswers | server/MRD_server.cpp:436-449 | SET is accepted if and only if the key holds no sorted set; it then holds the string for 900000 ms more, and else nothing changes |
| Answers.DelAnswers | server/MRD_server.cpp:451-463 | after DEL the key is gone and all others are as they were; 1 if it was there, an error if not |
| Answers.ZAddAnswers | server/MRD_server.cpp:465-493 | the name gets the score in a set that is there or new, for 900000 ms more; the errors for a bad number and for a string |
| Answers.ZRemAnswers | server/MRD_server.cpp:495-506 | exactly the name leaves the set, and the deadline stays |
| Answers.ZQueryGeAnswers | server/MRD_server.cpp:510-550 | pair by pair: from offset places above the first element not less than the key, upward, as many as the limit and the set allow; nothing if there is no such element |
| Answers.ZQueryLeAnswers | server/MRD_server.cpp:552-592 | pair by pair: from offset places beside the last element not greater than the key, downward |
| Answers.Parted | shared/src/MRD_zset.cpp:149-161 | every sorted listing is one part less than a key and one part that is not |
| Answers.ZQueryErrors | server/MRD_server.cpp:511-535 | otherwise the first thing that is wrong is answered, in the order key, score, offset, limit |
| Answers.ZCountAnswers | server/MRD_server.cpp:611-631 | the number of elements with a score from the third word to the fourth, and the state stays |
| Answers.ZRankAnswers | server/MRD_server.cpp:594-609 | the key gets 900000 ms more and keeps its value; a stranger has the rank 0 |
| Answers.ZRankBounds | server/MRD_server.cpp:605 | an element's rank is at least 1 and at most its place in the sorted view |
| Answers.ExpireAnswers | server/MRD_server.cpp:633-650 | the value stays and the deadline is the time plus the lifetime, or none if that is negative; nothing changes for no key or no number |
| Answers.TtlAnswers | server/MRD_server.cpp:652-657 | TTL changes nothing and answers the deadline; without one the process is lost |
| Answers.EchoOneMore | server/MRD_server.cpp:659-666 | one more word in an ECHO comes last in its answer, with a blank behind it |
| Answers.EchoAnswers | server/MRD_server.cpp:659-666 | ECHO changes nothing and answers a string, empty for no words |
| Answers.SdieSpelled | server/MRD_server.cpp:192-195 | SDIE is those four letters, large or small, whatever comes behind |
| Answers.OthersAreUnknown | server/MRD_server.cpp:196 | every other name or number of words is an error and changes nothing |
| Framing.DecodeLater | server/MRD_server.cpp:222-249 | bytes that arrive later are decoded as if all had come at once |
| Framing.ChunkingDoesNotMatter | server/MRD_server.cpp:267-290 | however a stream is split into reads, the same commands are decoded up to the first bad frame, the same state is reached and the same bytes are sent, for every step function |
| Framing.ReceiveTwice | server/MRD_server.cpp:283-284 | two reads are one read of all the bytes |
| Framing.DecodeInvertsFrames | server/MRD_server.cpp:222-249 | what is decoded is framed by exactly the bytes that were taken, and decoding stops only where no frame begins |
| Framing.FramesAreDecoded | client/client.cpp:16-30 | the frames of any requests that clients can send are decoded to those requests |
| Framing.ClosedMeansBad | server/MRD_server.cpp:222-243 | decoding ends in a closed connection exactly if the length left in front is too large, or its whole payload is there and encodes no list of at most MAX_CMDS words; it goes on waiting exactly if bytes are missing |
| Connections.ResponseBegin | server/MRD_server.cpp:199-201 | a placeholder for the length |
| Connections.ResponseEnd | server/MRD_server.cpp:203-220 | the queue holds the earlier bytes and the framed response if and only if it is at most MAX_MSG long; otherwise everything queued is given up for one framed error of 35 bytes, intact but for four bytes at most |
| Connections.ReplaceAll | server/MRD_server.cpp:205-209 | the queue is replaced by one framed error |
| Connections.Peek | server/MRD_server.cpp:223-243 | what stands at the front of the received bytes: the encoding of a list of words, too few bytes to say, or bytes that cannot begin a frame, each exactly when it is so |
| Connections.TryOneRequest | server/MRD_server.cpp:222-249 | one attempt: nothing, a connection to be closed, or one step of the state with its response queued and its frame consumed; the connection is closed exactly for bytes that cannot begin a frame, and the server told to stop exactly by an SDIE at the front |
| Connections.HandleRead | server/MRD_server.cpp:283-284 | after a read all complete requests are served in order, each from the state the one before left, and the responses are queued in that order; what is left either is too short for a frame or cannot begin one, which is when the connection is to be closed; the server goes on unless a request was SDIE; the process is lost only on the next request, when that is fatal or its response does not fit |
| Connections.Serve | server/MRD_server.cpp:244-246 | one request is a step of the state with its framed response behind what was queued; lost only when it is fatal or the response does not fit, and told to stop exactly by SDIE |
| Connections.Drain | server/MRD_server.cpp:251-265 | the first bytes of the queue leave it, as many as there is room for, and the rest stays in order |
| Connections.AgreesResponds | server/MRD_server.cpp:283-284 | a run of requests that were answered as a function tells sends what that function sends |
| Connections.ReadIsReceive | server/MRD_server.cpp:267-290 | what a read does is what the chunking theorem is about |
| MainLoops.Arrival | server/MRD_server.cpp:354-356 | the requests that the bytes complete are served at their times and appended to the trace, in schedule; if the server is lost, on the very next job of the schedule; no other connection notices |
| MainLoops.Tick | server/MRD_server.cpp:364 | the timers run at the time of the input, the trace grows by exactly that tick, and no connection notices |
| MainLoops.Departure | server/MRD_server.cpp:251-265 | as many queued bytes of one connection as there is room for are sent, and with those sent before and those still queued they are the responses in their order |
| MainLoops.MainLoop | server/MRD_server.cpp:309-367 | in whatever order pieces of the streams, room for sending and ends of rounds come, the trace is a run of the abstract server and does exactly the schedule of the inputs, job by job, at their times; each connection is served exactly the requests in its own stream, and what has been sent and what is queued are together the responses; it stops at the first end of a round by which SDIE was served and nowhere else, or is lost on the next job of the schedule |
| MainLoops.ScheduleGrows | server/MRD_server.cpp:309-367 | what one input adds to the schedule: the timers at the time of a round's end, or the requests by which a connection's decoded stream is longer, each at its time |
| MainLoops.StopsIf | server/MRD_server.cpp:309-367 | the loop stops at the end of a round exactly if SDIE has come by then in the stream of some connection |
| MainLoops.ScheduleIsSendable | server/MRD_server.cpp:222-249 | every request in a schedule has come through the framing |
| MainLoops.TraceIsSendable | server/MRD_server.cpp:222-249 | a trace that does a part of a schedule is one to which the theorems about runs apply |
| MainLoops.LossHasACause | server/MRD_server.cpp:309-367 | a server that started empty is lost only on one of the fatal requests or on one whose reply does not fit a message |
| MainLoops.ServedIsNotFatal | server/MRD_server.cpp:152-198 | no request that it has served was fatal |
| MainLoops.StepOn | server/MRD_server.cpp:267-290 | one more piece of a stream leaves the connection where the whole stream so far brings it |
| Client.PrintResponse | client/client.cpp:31-118 | the recursive decoder with its loop computes `Show`, whose lengths are 32-bit and signed |
| Client.ShowsPlain | client/client.cpp:57-113 | every string, integer, double and nested array of these that is shorter than 2^31 bytes is shown as it was encoded, with its own length |
| Client.ClientShows | client/client.cpp:31-118 | every reply of the server of up to 2^31 bytes is shown as it is; the returned length is right if and only if it is neither nil nor an error |
| Client.CutIsRefused | client/client.cpp:31-118 | a reply of the server that is cut short anywhere is refused |
| Client.ReadRes | client/client.cpp:119-154 | reading one response takes its length, its message and no more, or stops |
| Conversations.HearsAll | client/client.cpp:119-154 | from the bytes of the responses the client hears each reply, in order, and nothing else |
| Conversations.EachIsAnswered | server/MRD_server.cpp:309-367 | a client whose requests have all been framed hears one reply to each of them, in order, whatever pieces its bytes came in and whatever others did |
| Conversations.RequestBytes | client/client.cpp:16-30 | the bytes of one request, decoded |
| Conversations.GetConversation | server/MRD_server.cpp:425-434 | the bytes of the response to that request |
| Conversations.BadRequestBytes | server/MRD_server.cpp:238-243 | nine bytes that close a connection |
| Conversations.ArrayBytes | shared/include/MRD_utility.h:79-96 | the bytes of an array reply |
| Conversations.MinusTwo | shared/include/MRD_utility.h:69-73 | the bytes of a negative integer |
| Conversations.ErrorBytes | shared/include/MRD_utility.h:97-105 | the bytes of an error, and the numbers of the error codes |
| Conversations.RequestLimits | server/MRD_server.cpp:119-147 | the longest word and the greatest number of words that a request may have, as numbers |
| Runs.RunKeepsStringsFit | server/MRD_server.cpp:436-449 | in every run no stored string is longer than a message |
| Runs.StringsComeFromSet | server/MRD_server.cpp:436-449 | every stored string is the value of an accepted SET of its key earlier in the run |
| Runs.OnlyFatalRequestsCrash | server/MRD_server.cpp:152-198 | in every run a request is lost if and only if it is one of three fatal kinds; the assertion of GET never fails |
| Runs.TtlCanCrash | server/MRD_server.cpp:652-657 | three requests after which the server is lost |
| Runs.EmptyRequestCrashes | server/MRD_server.cpp:153 | one request after which the server is lost |
| Runs.ZCountCanCrash | server/MRD_server.cpp:621-622 | two requests after which the server is lost |
| Runs.LongReplyCanHappen | server/MRD_server.cpp:203-220 | three requests that fit a message, the last with a reply that does not |
| Runs.ZRemAnswer | server/MRD_server.cpp:495-506 | the 1 that ZREM answers is the number of elements removed if and only if the name is in the set |
| Runs.TtlAnswer | server/MRD_server.cpp:652-657 | what TTL answers is the time left if and only if the time is 0 |
| Runs.GetAndEchoFit | server/MRD_server.cpp:425-434 | in every run the responses to GET and ECHO fit a message |
| Runs.RepliesAreServable | client/client.cpp:31-118 | whatever the server replies is of a kind that the client shows, except that an integer needs 64 bits to be enough: they are, as long as deadlines and sizes of sets are below 2^63 |
| Runs.StepDetermined | server/MRD_server.cpp:152-198 | state, request and time determine the next state, and the reply except for the rank |
| Runs.StepKeepsOthers | server/MRD_server.cpp:152-198 | a request leaves every key alone that it does not name |
| Runs.SetThenGet | server/MRD_server.cpp:425-449 | what an accepted SET stored, GET answers until another request names the key or a tick comes after its lifetime |
| Runs.DelThenGet | server/MRD_server.cpp:451-463 | after a DEL of a key, GET does not find it until another request names it |
| Runs.ExpireThenTtl | server/MRD_server.cpp:633-657 | the lifetime that EXPIRE sets is the one TTL tells, until another request names the key or a tick comes after it |
| Runs.ExpireThenTick | server/MRD_server.cpp:97-103 | a tick after that lifetime forgets the key, unless MAX_WORKS others are due no later |
| Runs.NegativeKeeps | server/MRD_server.cpp:106-110 | after a negative lifetime the entry outlives every tick |
| Runs.TickForgets | server/MRD_server.cpp:97-103 | a tick forgets all late entries if they are 2000 at most, and otherwise 2000 of them that were due no later than those it leaves; everything else stays |
| Runs.LateTickForgets | server/MRD_server.cpp:97-103 | a tick after the deadline of an entry that was left alone forgets it, unless MAX_WORKS other entries are due no later |

## Left out

- Connections.ResponseEnd: for a response over MAX_MSG it is not stated where in the one error that is left the stale length was written, which depends on the allocation.
- Connections.HandleRead: read errors and the end of the stream, which only mark the connection for closing, are not part of it; the write that follows is `Connections.Drain`.
- MainLoops.MainLoop: the connections are given from the start and none is freed; accepting, polling and errors of sockets are not part of it, how much of a queue can be sent comes with the input, and bytes for a connection that is to be closed are ignored.
- Codec.SendReq: writing the frame to the socket is not part of it.
- Keyspaces.Keyspace.ProcessTimers: closing idle connections (lines 89-96) is not part of it.
- Sockets, `poll`, `accept`, file descriptors, logging and the client's prompt.
- The list of idle connections, which line 353 of the server refills with its arguments swapped, and the timeout computed from it.
- The errors of `handle_write`, whose test of `errno` is inverted, and the flags `want_read` and `want_write`.
- Releasing memory, `end_run`, destructors, moves and swaps of whole objects, and the copy assignment built on them; deleted nodes and entries are simply no longer reachable.
- `ZSet::tree_delete` and `zeq`, which nothing calls.
- `append(const Buffer&, size_t)`, which nothing calls.
- Floating point: scores are reals, so NaN, infinities and rounding do not occur, and a double on the wire is eight bytes given by `Spec.Library`.
- Parsing of numbers by `stod`, `stol` and `stoi`, which are functions of the word in `Spec.Library`, each with its two exceptions.
- Overflow of `size_t`, of 32-bit heights, counts and lengths, and of 64-bit deadlines; it needs more elements or bytes than 32 bits count.
- `container_of`: a tree node, its hash node and its element are one object or point to each other.
- Concurrency does not occur: the server is one thread.
