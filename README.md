# coxx core in Dafny

This project models the core of coxx, a small Redis-like key/value server written in C and C++. It models the data structures and the wire protocol:

- **Intrusive AVL tree** (`avl/c/avl.c`). Nodes cache their subtree height (`depth`) and size (`count`). The model covers `init`, `update`, the rotations, `fixLeft`/`fixRight`, `fix`, `del` and `offset`. It also covers the unit tests' insert-by-value and search-then-delete helpers (`avl/tests/test_c_avl.cxx`).
  - The nodes are records in a pool, `Avl.AvlPool`, and the methods rewrite those records in place.
  - Each method is proved to build the ghost tree shape that a pure function of `AvlTree` computes.
  - Lemmas prove that these shapes keep the in-order sequence and that `fix` restores balance.
- **Chained hash table and hash map with progressive rehashing** (`table/c/table.c`, `map/c/map.c`).
  - `HashTable` holds one table as a value, because C copies it by struct assignment.
  - `HashMap.CMap` is the two-table map. Each operation moves at most 128 nodes from the old table to the new one.
- **Sorted set** (`zset/zset.cxx`): an AVL tree ordered by `zLess` (module `ZOrder`) together with a hash map keyed by the member name (class `ZSet.ZSet`).
- **Request decoder** (`Request`): the body format and `Request::parse`.
- **Command handler** (`Store`): case-insensitive `get`/`set`/`del` dispatch over the key/value map.
- **Hash function** (`StringHash`): the 32-bit string hash.
- **Response serialiser** (`Serialize`): the tag-length-value encoder.
- **Client framing** (`Client`): request framing and response checks.
- **Connection state machine** (`Conn`): the per-connection REQ/RES/END machine with its read and write buffers.
- **Entry helpers** (`Entry`): entry equality, zset disposal and the bucket scan.
- **Golden-transcript parser** (`Corpus`): the parser of the command-test transcript and its exact-match check (`test_commands.py`).

## Modelling conventions

- **Integers.** A native integer copied with `memcpy` is little-endian, so `U32(n)` is the 4-byte little-endian image of `n` (module `Wire`).
- **Characters.** `char` is signed.
- **Sizes and the hash.** Sizes are unbounded `nat`s. The 32-bit arithmetic of `stringHash` is written out modulo 2^32.
- **Scores.** Zset scores are `real`. There is no NaN, and scores are only compared.
- **Linked structures.**
  - A pointer is an optional node id.
  - A chain of the hash table is the sequence of its nodes in link order.
  - A link `CNode **from` is a (slot, index) pair.
- **I/O.**
  - The `read`/`write` results a connection will see are given up front as event sequences in `Conn.Socket`.
  - The request handler of a connection is a function parameter.
  - The command runner of the transcript check is a function parameter.

## Model

| member | source | states |
|---|---|---|
| Wire.FromLittleEndianOfLittleEndian | common/req.cxx:88-89 | reading back the little-endian bytes of a value below 256^k gives the value |
| Wire.LittleEndianOfFromLittleEndian | common/req.cxx:100-101 | every k-byte string is the little-endian image of the number it reads as |
| Wire.U32 | common/serialize.cxx:17-18 | the 4-byte image of a 32-bit value has 4 bytes and reads back as the value |
| Wire.ReadU32OfU32 | common/req.cxx:88-89 | a 4-byte header reads back as the value written, whatever follows it |
| Wire.U32OfReadU32 | common/req.cxx:100-101 | the first four bytes of any buffer are the image of the value read from them |
| Wire.ReadSignedOfSigned | common/serialize.cxx:32-34 | a signed value in range written in two's complement reads back as itself |
| StringHash.SignedChar | common/req.cxx:13-14 | a byte added as a `char` is a signed value in [-128, 128) congruent to the byte mod 256 |
| StringHash.HashAppend | common/req.cxx:11-17 | the hash of s + [b] is one fold step `(h + c) * 0x01000193 mod 2^32` applied to the hash of s, starting from 0x811C9DC5 |
| StringHash.ComputeHash | zset/zset.cxx:15-21 | the loop computes the fold `Hash` of its input, which is below 2^32 |
| Request.Parse | common/req.cxx:82-119 | the loop computes `ParseRequest`; fewer than 4 bytes or a count above 1024 fail; on success there are exactly `count` arguments |
| Request.ParseArgsOfEncodeList | common/req.cxx:94-116 | the argument loop reads back an encoded list and fails if any byte follows it |
| Request.ParseOfEncode | common/req.cxx:82-119 | decoding the encoding of at most 1024 arguments returns those arguments in wire order |
| Request.ParseRejectsTrailingBytes | common/req.cxx:114-116 | an encoded request followed by extra bytes is rejected |
| Request.EncodeListOfParseArgs | common/req.cxx:95-112 | whatever the argument loop accepts is exactly the encoding of the arguments it returns, each header and body within the message |
| Request.EncodeOfParse | common/req.cxx:82-119 | every accepted message is the encoding of its parse, with at most 1024 arguments |
| Serialize.Nil | common/serialize.cxx:11-13 | appends one byte, keeps the prefix, and the byte reads as NIL |
| Serialize.Str | common/serialize.cxx:15-20 | appends 5 + \|val\| bytes, keeps the prefix, and they read back as the string item |
| Serialize.ReadStrItem | common/serialize.cxx:15-20 | STR tag, 4-byte length and bytes read back as the string |
| Serialize.Num | common/serialize.cxx:22-25 | appends 9 bytes, keeps the prefix, and they read back as the 64-bit integer |
| Serialize.Err | common/serialize.cxx:32-38 | appends 9 + \|msg\| bytes, keeps the prefix, and they read back as the error code and message |
| Serialize.ReadErrItem | common/serialize.cxx:32-38 | ERR tag, signed 4-byte code, 4-byte length and message read back as the error |
| Serialize.Arr | common/serialize.cxx:40-43 | appends 5 bytes, keeps the prefix, and they read back as an array header of n elements |
| Serialize.BeginArr | common/serialize.cxx:45-49 | appends an ARR header with count 0 and returns the offset of the count field, \|out\| - 4, preceded by the ARR tag |
| Serialize.EndArr | common/serialize.cxx:51-55 | requires the ARR tag before ctx; overwrites only the 4 count bytes, keeps the length, and the header reads as n |
| Serialize.BeginThenEndIsArr | common/serialize.cxx:40-55 | `begin_arr` followed by `end_arr(n)` yields the same bytes as `arr(n)` |
| Client.PayloadLength | client/client.cxx:20-24 | the loop computes len = 4 + sum of (4 + \|s\|) over the arguments |
| Client.SmallRequestIsEncodable | client/client.cxx:20-28 | a request within the 4096-byte limit has fewer than 1024 arguments, each short enough to encode |
| Client.WriteHeader | client/client.cxx:31-33 | the buffer starts with the 4-byte length and the 4-byte argument count |
| Client.WriteArg | client/client.cxx:37-39 | writes the 4-byte size and the bytes of one argument after the given prefix |
| Client.WriteArgs | client/client.cxx:35-41 | the loop writes the encoded argument list after the header |
| Client.FillFrame | client/client.cxx:30-44 | the bytes sent are the frame: length, count, then each argument |
| Client.SendRequest | client/client.cxx:18-45 | refuses exactly when len > 4096; otherwise sends the frame, whose length field counts the rest of it |
| Client.SendThenParse | client/client.cxx:31-44 | `Request::parse` of frame bytes 4 .. 4 + len returns the argument list sent |
| Client.WrappedLength | client/client.cxx:20-24 | the length as accumulated in a `uint32_t`: the true length mod 2^32 |
| Client.WrappedLengthAdmitsOversizedRequest | client/client.cxx:20-28 | one argument of 2^32 - 8 bytes wraps the length to 0, which passes the limit check |
| Client.ReadResponse | client/client.cxx:57-106 | a reply is produced only for a declared length within 4096 and at least 4, with the whole body present |
| Client.ReadResponseOfFrame | client/client.cxx:75-104 | a response frame reads back as its code and message, whatever follows |
| Client.FrameOfReadResponse | client/client.cxx:75-104 | every accepted response is a frame of its code and message |
| HashTable.EmptyTable | table/c/table.c:11-15 | an initialised table is unallocated and empty |
| HashTable.Init | table/c/table.c:23-28 | for a power of two n: n empty slots, mask n - 1, size 0 |
| HashTable.SlotOf | table/c/table.c:31 | `code & mask` is a slot of the table |
| HashTable.Insert | table/c/table.c:30-36 | prepends the node to chain `code & mask`, increments size, adds the node to the contents |
| HashTable.LookUp | table/c/table.c:38-52 | unallocated gives NULL; otherwise the link to the first node of the key's chain with equal code and `eq`, or NULL when none matches |
| HashTable.NoMatchOutsideSlot | table/c/table.c:43-51 | a key matching no node of its own chain matches no node of the table |
| HashTable.Detach | table/c/table.c:54-59 | unlinks exactly the node at the link, keeps the rest of the chain in order, decrements size |
| HashTable.DetachLink | table/cxx/table.cxx:38-47 | detaching the null link returns nothing and changes nothing; otherwise it detaches that node |
| HashMap.ScanStaysInRange | map/c/map.c:66-72 | while table2 is not empty, the migration scan never runs past its last slot |
| HashMap.NotFoundMeansAbsent | map/c/map.c:91-95 | a key absent from its chain in a table is absent from that table |
| HashMap.CMap.constructor | map/c/map.c:20-24 | `initMap`: both tables unallocated, resizingPosition 0, no nodes |
| HashMap.CMap.Size | map/c/map.c:130 | table1.size + table2.size is the number of nodes held |
| HashMap.CMap.MoveHead | map/c/map.c:68-75 | moves one node from table2 to table1 without changing the contents |
| HashMap.CMap.HelpResizing | map/c/map.c:64-82 | moves at most 128 nodes, keeps the contents, and resets table2 once it is drained |
| HashMap.CMap.StartResizing | map/c/map.c:84-89 | table2 becomes the old table1 and table1 a fresh table of twice the slots |
| HashMap.CMap.LookUp | map/c/map.c:91-96 | returns a held node matching the key, or nothing only when no held node matches |
| HashMap.CMap.Push | map/c/map.c:98-103 | allocates 4 slots on first use and adds the node to table1 |
| HashMap.CMap.Insert | map/c/map.c:98-113 | adds the node; table1 doubles exactly when no resize is running and size/slots reaches 8 |
| HashMap.CMap.DetachFrom1 | map/c/map.c:117-120 | detaching from table1 removes that one node from the contents |
| HashMap.CMap.DetachFrom2 | map/c/map.c:122-125 | detaching from table2 removes that one node from the contents |
| HashMap.CMap.Pop | map/c/map.c:115-128 | removes and returns one matching node, or returns nothing and changes nothing when no node matches |
| HashMap.CMap.Destroy | map/c/map.c:132-136 | leaves both tables unallocated and the map empty |
| Entry.EntryMatchIsKeyMatch | common/entry.cxx:4-8 | a stored node (hashed by its key) passes the map's hash-then-equality test against a probe exactly when the two keys are equal |
| Entry.EntryEqualityIsEquivalence | common/entry.cxx:4-8 | entry equality is reflexive, symmetric and transitive |
| Entry.TypeTag | common/entry.cxx:11 | the `KeyType` a type field converts to is its low byte: below 256 and congruent to the field mod 256, and the field itself when it is below 256 |
| Entry.EntryDelete | common/entry.cxx:10-20 | an entry whose type field converts to ZSET (any field congruent to 1 mod 256) has its map emptied; any other entry is left alone |
| Entry.ChainsAreElems | common/entry.cxx:27-33 | the chains concatenated slot by slot hold each node of the table once |
| Entry.EmptyElemsHaveEmptySlots | common/entry.cxx:24-33 | a table holding no nodes yields no visits |
| Entry.Scan | common/entry.cxx:22-33 | size 0 visits nothing; otherwise each node once, slot by slot and along each chain in link order |
| Store.IsCommandIgnoresCase | common/req.cxx:19-21 | two words equal up to ASCII case are the same command |
| Store.IsCommandStopsAtNul | common/req.cxx:19-21 | the comparison reads the word as a C string, so bytes after a NUL are ignored |
| Store.CommandsDiffer | common/req.cxx:133-138 | no word is two of get, set, del |
| Store.GetKeepsDb | common/req.cxx:23-42 | `get` changes nothing and answers NX exactly for a missing key |
| Store.GetAfterSet | common/req.cxx:23-64 | `set` answers OK and a later `get` returns the value set |
| Store.GetAfterDel | common/req.cxx:23-42 | `del` answers OK, the key is gone, and a later `get` answers NX |
| Store.OtherKeysUnchanged | common/req.cxx:44-80 | no command changes a key other than its argument |
| Store.UnknownCommand | common/req.cxx:133-146 | wrong arity or name gives ERR "Unknown command" (15 bytes) and no change |
| Store.ArgsWithinRequest | common/req.cxx:107-109 | every parsed argument is no longer than the request |
| Store.Store.constructor | common/req.cxx:3 | the database starts empty |
| Store.Store.Find | common/req.cxx:26-30 | finds the live entry with that key, or shows the key absent |
| Store.Store.Get | common/req.cxx:23-42 | OK with the stored value, or NX exactly when the key is absent; the database is unchanged |
| Store.Store.Set | common/req.cxx:44-64 | the database becomes the old one with key mapped to val; answers OK |
| Store.Store.Del | common/req.cxx:66-80 | the database loses key, present or not; answers OK |
| Store.Store.Handle | common/req.cxx:121-147 | a malformed request is refused with no change; otherwise the database and answer are those of the reference semantics `Command` |
| ZOrder.Memcmp | zset/zset.cxx:30-31 | zero exactly when the first n bytes agree |
| ZOrder.MemcmpSwap | zset/zset.cxx:30-31 | swapping the operands negates the comparison |
| ZOrder.NameLessIsLex | zset/zset.cxx:30-36 | common-prefix `memcmp` then shorter-first is the lexicographic order on names |
| ZOrder.LexTrans | zset/zset.cxx:30-36 | the name order is transitive |
| ZOrder.LexTotal | zset/zset.cxx:30-36 | the name order is total and asymmetric |
| ZOrder.ZLessIrreflexive | zset/zset.cxx:23-43 | no pair is zLess than itself |
| ZOrder.ZLessTotal | zset/zset.cxx:23-43 | distinct (score, name) pairs are ordered one way exactly |
| ZOrder.ZLessTrans | zset/zset.cxx:23-43 | zLess is transitive |
| ZOrder.ZLessIsStrictWeakOrder | zset/zset.cxx:23-43 | zLess is a strict weak order, as the tree search needs |
| ZSet.MapCmp | zset/zset.cxx:7-13 | true exactly when the names are equal, in length and bytes |
| ZSet.QueryEnds | zset/zset.cxx:129-142 | where the lower-bound descent ends is the first member not below the key; all before it are below |
| ZSet.ZSet.constructor | zset/zset.hxx:17-20 | a new set has no tree and no members |
| ZSet.ZSet.MembersIncrease | zset/zset.cxx:45-55 | the members in tree order are strictly increasing under zLess |
| ZSet.ZSet.LookUp | zset/zset.cxx:74-84 | returns the member with that name, or nothing only when no member has it |
| ZSet.ZSet.TreeAdd | zset/zset.cxx:45-55 | the node is inserted once into the tree order, keeping it balanced and sorted |
| ZSet.ZSet.New | zset/zset.cxx:57-72 | a fresh node holding the score and name, with map code the hash of the name |
| ZSet.ZSet.Unplace | zset/zset.cxx:90-92 | takes the node out of the tree and gives it its new score |
| ZSet.ZSet.TreeRemove | zset/zset.cxx:90 | removes exactly that node from the tree order |
| ZSet.ZSet.Update | zset/zset.cxx:86-94 | the same score changes nothing; otherwise the member is replaced by one with the new score |
| ZSet.ZSet.Insert | zset/zset.cxx:103-106 | a new name is added to both map and tree |
| ZSet.ZSet.Add | zset/zset.cxx:96-108 | true exactly for a new name, which is added; otherwise that member's score is replaced |
| ZSet.ZSet.Remove | zset/zset.cxx:124-126 | after the map pop, the node leaves the tree and map and tree agree again |
| ZSet.ZSet.Pop | zset/zset.cxx:110-127 | removes and returns the named member, or changes nothing when the name is absent |
| ZSet.ZSet.Query | zset/zset.cxx:129-142 | the least member not zLess than (score, name), or nothing when every member is below it |
| ZSet.ZSet.Offset | zset/zset.cxx:144-147 | null gives null; otherwise the member rank(node) + off in order, or null out of range |
| ZSet.ZSet.Dispose | zset/zset.cxx:151 | the map is emptied |
| Avl.Depth | avl/c/avl.c:15 | the cached depth, 0 for null, is the height of the subtree |
| Avl.Count | avl/c/avl.c:17 | the cached count, 0 for null, is the size of the subtree |
| Avl.AvlPool.Init | avl/c/avl.c:3-9 | the node is a lone leaf: depth 1, count 1, no links |
| Avl.AvlPool.Update | avl/c/avl.c:19-22 | depth = 1 + max of the child depths and count = 1 + the child counts; nothing else changes |
| Avl.AvlPool.RotateLeft | avl/c/avl.c:24-36 | the records spell the rotated shape (same in-order), the new root is the old right child with the old parent, nothing outside changes |
| Avl.AvlPool.RotateRight | avl/c/avl.c:38-50 | the mirror image of RotateLeft |
| Avl.AvlPool.FixLeft | avl/c/avl.c:52-58 | the records spell `FixLeftTree`: a double rotation when the inner grandchild is deeper |
| Avl.AvlPool.FixRight | avl/c/avl.c:60-66 | the records spell `FixRightTree` |
| Avl.AvlPool.Rebalance | avl/c/avl.c:79-83 | rotates exactly when the child depths differ by 2 |
| Avl.AvlPool.FixStep | avl/c/avl.c:71-83 | one loop step: update and rebalance the node, remember the parent link |
| Avl.AvlPool.Ascend | avl/c/avl.c:84-88 | re-links the parent to the fixed subtree and climbs |
| Avl.AvlPool.Fix | avl/c/avl.c:68-90 | climbs to the root, returns it, and the records spell `FixUp` of the path |
| Avl.AvlPool.Repoint | avl/c/avl.c:100-106 | the parent's child link that pointed at the node now points at the replacement |
| Avl.AvlPool.DelNoRight | avl/c/avl.c:93-111 | replaces the node by its left subtree and fixes from the parent, or returns the left subtree at the root |
| Avl.AvlPool.Successor | avl/c/avl.c:114-117 | finds the leftmost node of the right subtree |
| Avl.AvlPool.Adopt | avl/c/avl.c:120-126 | the successor takes over the node's record and its children point back to it |
| Avl.AvlPool.Transplant | avl/c/avl.c:120-133 | the successor takes the node's place in the tree |
| Avl.AvlPool.DelWithSuccessor | avl/c/avl.c:112-139 | removes the node by successor swap; still an AVL tree, in-order loses exactly that node |
| Avl.AvlPool.Del | avl/c/avl.c:92-140 | the result is an AVL tree with correct links and caches whose in-order sequence is the old one without the node |
| Avl.AvlPool.Offset | avl/c/avl.c:142-167 | the node of rank rank(node) + k, or NULL when that rank is outside the tree |
| Avl.AvlPool.SearchPlace | avl/tests/test_c_avl.cxx:25-36 | the descent ends at an empty place where the value fits the order |
| Avl.AvlPool.AttachLeaf | avl/tests/test_c_avl.cxx:37-40 | hangs the leaf at that place, linking child and parent |
| Avl.AvlPool.HangAndFix | avl/tests/test_c_avl.cxx:37-41 | hangs the leaf and runs `fix`; the records spell the fixed tree |
| Avl.AvlPool.InsertBy | avl/tests/test_c_avl.cxx:25-42 | still an AVL tree, sorted, with the leaf inserted once after every node not above it |
| AvlTree.RotateLeftTree | avl/c/avl.c:24-36 | keeps the in-order sequence and the node set |
| AvlTree.RotateRightTree | avl/c/avl.c:38-50 | keeps the in-order sequence and the node set |
| AvlTree.FixLeftTree | avl/c/avl.c:52-58 | keeps the in-order sequence and the node set |
| AvlTree.FixRightTree | avl/c/avl.c:60-66 | keeps the in-order sequence and the node set |
| AvlTree.FixNode | avl/c/avl.c:79-83 | keeps the in-order sequence and the node set |
| AvlTree.FixLeftBalanced | avl/c/avl.c:52-58 | a left side 2 deeper gives a balanced subtree of known height |
| AvlTree.FixRightBalanced | avl/c/avl.c:60-66 | a right side 2 deeper gives a balanced subtree of known height |
| AvlTree.FixNodeBalanced | avl/c/avl.c:79-83 | balanced children within 2 give a balanced node |
| AvlTree.InorderFixUp | avl/c/avl.c:68-90 | `fix` keeps the in-order sequence of the whole tree |
| AvlTree.IdsFixUp | avl/c/avl.c:68-90 | `fix` keeps the node set and distinctness |
| AvlTree.FixUpBalanced | avl/c/avl.c:68-90 | `fix` from a pending imbalance yields a balanced tree |
| AvlTree.InsertShape | avl/tests/test_c_avl.cxx:25-42 | attaching a leaf and fixing gives a balanced tree with the leaf inserted in order |
| AvlTree.InsertSorted | avl/tests/test_c_avl.cxx:83-92 | inserting at the place found keeps the values sorted |
| AvlTree.WithoutRemovesOne | avl/c/avl.c:92-140 | deletion removes exactly one occurrence of the node |
| AvlTree.RemoveShape | avl/c/avl.c:93-111 | the no-right-child removal gives a balanced tree without the node |
| AvlTree.SuccessorRank | avl/c/avl.c:114-117 | the leftmost node of the right subtree is the next in order |
| AvlTree.SwapShape | avl/c/avl.c:112-139 | putting the successor in the removed node's place gives a balanced tree without the node |
| AvlContainer.BelowIsStrictWeakOrder | avl/tests/test_c_avl.cxx:36 | the value order of the tests is a strict weak order |
| AvlContainer.SearchMisses | avl/tests/test_c_avl.cxx:45-52 | a search that falls off the tree shows the value is absent |
| AvlContainer.DropValue | avl/tests/test_c_avl.cxx:104-110 | dropping one node keeps the values sorted and removes one occurrence |
| AvlContainer.Container.constructor | avl/tests/test_c_avl.cxx:21-23 | an empty container |
| AvlContainer.Container.Add | avl/tests/test_c_avl.cxx:25-42 | the value multiset gains the value (duplicates too); count(root) is the number of values; all invariants hold |
| AvlContainer.Container.Find | avl/tests/test_c_avl.cxx:44-53 | finds a node holding the value, or shows it absent |
| AvlContainer.Container.Remove | avl/tests/test_c_avl.cxx:54-58 | deleting the node removes its value once; invariants hold |
| AvlContainer.Container.Del | avl/tests/test_c_avl.cxx:44-61 | true exactly when the value was present; one occurrence is removed; count(root) is the number of values |
| Conn.ReadOf | common/conn.cxx:102-106 | a read delivers at most the available capacity |
| Conn.WriteOf | common/conn.cxx:68-72 | a write accepts at most the bytes offered |
| Conn.NextRead | common/conn.cxx:102-106 | the retried read is never EINTR |
| Conn.NextWrite | common/conn.cxx:68-72 | the retried write is never EINTR |
| Conn.SettleLemmaRead | common/conn.cxx:102-106 | after skipping EINTRs the next read event is not EINTR |
| Conn.SettleLemmaWrite | common/conn.cxx:68-72 | after skipping EINTRs the next write event is not EINTR |
| Conn.SettleStepRead | common/conn.cxx:102-106 | an EINTR read is retried; any other result is taken |
| Conn.SettleStepWrite | common/conn.cxx:68-72 | an EINTR write is retried; any other result is taken |
| Conn.FlushOnce | common/conn.cxx:66-96 | one round never sends more than is pending, and it asks to write again only after a write with room for less than all of it |
| Conn.FlushAllOrRes | common/conn.cxx:84-95 | a non-empty reply goes back to REQ exactly when all of it was sent |
| Conn.FlushEndsOnError | common/conn.cxx:74-82 | the flush ends the connection only when some write fails with another error than EAGAIN and EINTR |
| Conn.FlushStateOfStop | common/conn.cxx:66-96 | the flush stops in REQ exactly after a write with room, in RES exactly after EAGAIN, in END exactly after another error |
| Conn.Socket.constructor | common/conn.cxx:104-105 | the socket starts with its events and no bytes exchanged |
| Conn.Socket.Read | common/conn.cxx:104-105 | one read: consumes one event, logs the bytes delivered |
| Conn.Socket.Write | common/conn.cxx:70-71 | one write: consumes one event, logs the prefix accepted |
| Conn.TooBigIsError | common/conn.cxx:40-43 | the replacement reply is the ERR item TOO_BIG "response is too big" |
| Conn.ReplyFrameShape | common/conn.cxx:40-48 | the reply frame fits the limit, its length field counts the rest, and it holds the output or the TOO_BIG error |
| Conn.NextStep | common/conn.cxx:8-33 | a taken frame lies within the buffer; needing more means the buffer is not full |
| Conn.StepTakesFrame | common/conn.cxx:13-33 | a taken frame is exactly the frame of the arguments parsed |
| Conn.StepOfFrame | common/conn.cxx:13-33 | a buffer starting with a request frame yields that frame, whatever follows |
| Conn.StepOfPrefix | common/conn.cxx:8-23 | a proper prefix of a frame waits for more data |
| Conn.ClientFrameIsRequestFrame | client/client.cxx:30-44 | what the client sends is the frame the connection takes |
| Conn.RequestStreamAppend | common/conn.cxx:51-56 | the stream of requests grows frame by frame |
| Conn.ReplyStreamAppend | common/conn.cxx:45-48 | the stream of replies grows frame by frame |
| Conn.ServedAppend | common/conn.cxx:35-59 | serving one more request extends both streams by its frame and reply |
| Conn.Connection.constructor | common/conn.hxx:29-30 | empty buffers, state REQ, no requests |
| Conn.Connection.DropFrame | common/conn.cxx:51-56 | the consumed frame is dropped and the rest moves to the front in order |
| Conn.Connection.PutReply | common/conn.cxx:45-48 | the write buffer holds the 4-byte length and the output |
| Conn.Connection.Append | common/conn.cxx:128 | the bytes read are appended to the read buffer |
| Conn.Connection.Pack | common/conn.cxx:45-59 | packs the reply, drops the frame, and logs request and reply |
| Conn.Connection.Respond | common/conn.cxx:35-63 | logs the request and its reply, drops the frame, and flushes: the socket accepts the prefix of the reply that `Flush` sends, the state is the one `Flush` leaves, and it returns true exactly when the whole reply went out |
| Conn.Connection.PeekRequest | common/conn.cxx:8-32 | the length and parse checks give exactly the step `NextStep` defines for the buffered bytes (wait, too long, bad request, or the frame and its size) |
| Conn.Connection.TryOneRequest | common/conn.cxx:7-64 | short or incomplete buffer: nothing changes, nothing is written; oversize or unparsable: END; otherwise one request served, frame dropped, the state is the one `Flush` of the reply leaves, and true exactly when the whole reply went out |
| Conn.Connection.WriteRetrying | common/conn.cxx:67-72 | retries EINTR and takes the first other result |
| Conn.Connection.ReadRetrying | common/conn.cxx:102-106 | retries EINTR and appends what was read; never over capacity |
| Conn.Connection.TryFlushBuffer | common/conn.cxx:66-96 | one round as `FlushOnce` gives it: the socket accepts that many pending bytes, the rest stays pending while in RES, and the write events move past the write taken |
| Conn.Connection.TryFillBuffer | common/conn.cxx:98-135 | error or EOF ends, EAGAIN stops with nothing changed; otherwise serves requests, and if it stays in REQ the buffer holds no complete frame; true exactly when it read bytes and stays in REQ |
| Conn.Connection.HandleRequests | common/conn.cxx:131-133 | runs `tryOneRequest` until it stops; the log only grows, and if it ends in REQ the buffer needs more bytes for a frame |
| Conn.Connection.StateRequest | common/conn.cxx:137-141 | reads until it stops; the log only grows; staying in REQ means the last `read` returned EAGAIN and the buffer needs more bytes (or that first read blocked and nothing changed) |
| Conn.Connection.StateResponse | common/conn.cxx:143-147 | flushes until it stops, with the outcome `Flush` gives: the socket accepts a prefix of the pending bytes, the rest stays pending in RES, and the state is the one `Flush` leaves |
| Conn.Connection.Io | common/conn.cxx:163-172 | dispatches on REQ or RES; RES handles no request and flushes as `Flush` gives; REQ stays REQ only after EAGAIN with a buffer needing more |
| Corpus.LineLength | test_commands.py:74 | the first line ends at the first line break |
| Corpus.SplitLines | test_commands.py:74 | no line holds a line break |
| Corpus.SplitJoin | test_commands.py:74 | splitting lines joined with newlines gives them back |
| Corpus.FirstLine | test_commands.py:74 | the first line of line + break + rest is line |
| Corpus.TrimStartNoSpace | test_commands.py:79 | trimming removes exactly the leading whitespace |
| Corpus.TrimEndNoSpace | test_commands.py:79 | trimming removes exactly the trailing whitespace |
| Corpus.StripTrims | test_commands.py:79 | a stripped line has no whitespace at either end |
| Corpus.StripClean | test_commands.py:79 | a line with no whitespace at the ends is unchanged by strip |
| Corpus.AddLineFails | test_commands.py:85-86 | a line fails exactly when it is text before any case |
| Corpus.AddLineWellFormed | test_commands.py:78-86 | a step keeps commands and outputs parallel, outputs made of whole lines |
| Corpus.Fold | test_commands.py:78-89 | the fold keeps commands and outputs of equal length |
| Corpus.FoldFailed | test_commands.py:86 | once the fold fails it stays failed |
| Corpus.FoldCommands | test_commands.py:82-83 | the commands are the `$` lines minus their first two characters, in order |
| Corpus.NoCommands | test_commands.py:82-83 | there are no commands exactly when no line is a `$` line |
| Corpus.NoCaseYet | test_commands.py:82-86 | no case is open exactly when no `$` line has been seen |
| Corpus.FoldFailsIff | test_commands.py:85-86 | the fold fails exactly when some text line precedes every `$` line |
| Corpus.ParseCases | test_commands.py:72-86 | the loop computes the fold, after dropping a blank first line |
| Corpus.CheckCases | test_commands.py:89-98 | fails on unequal lengths; passes exactly when every command prints exactly its expected output; otherwise names the first mismatch |
| Corpus.AddText | test_commands.py:85-86 | a text line appends itself plus "\n" to the latest output |
| Corpus.FoldOutput | test_commands.py:85-86 | a run of text lines appends their joined lines to the latest output |
| Corpus.AddCommand | test_commands.py:82-84 | a `$ cmd` line opens a case with command cmd and empty output |
| Corpus.FoldCase | test_commands.py:78-86 | a case's lines add its command and its joined output |
| Corpus.FoldTranscript | test_commands.py:78-86 | a transcript folds to its commands and outputs |
| Corpus.ParseTranscript | test_commands.py:72-86 | the text of a transcript after a blank line parses to its commands and outputs |
| Corpus.TranscriptNoBreak | test_commands.py:74 | transcript lines of printable cases hold no line break |
| Corpus.CasesFoldable | test_commands.py:29-67 | every embedded case is a clean `$` line followed by clean text lines |
| Corpus.CasesFold | test_commands.py:29-67 | the embedded cases fold into 12 cases; case 6 is `zquery zset 1 "" 0 10` with its six expected lines |

## Left out

- Sockets, epoll, `accept`, the client and server entry points, and `readFull`/`writeAll`: OS I/O. The connection takes the results of `read`/`write` as inputs. `Client::sendRequest` returns the bytes it would write. `Client::readResponse` takes the bytes received.
- `Client.ReadResponse`: does not model console printing ("Server says", "EOF", "too long"). A short read is reported as a failure, without distinguishing errno.
- The connection's request handler `request(command, output)`: a function parameter of `Conn.Connection`. The key/value handler is modelled separately, in `Store`.
- Conn.Connection: the handler is treated as stateless, a fixed function from an argument list to a reply, so `Served` states that each reply is that function of its own request. In the source the handler's database is static (common/req.cxx:3) and `set`/`del` change it (common/req.cxx:44-80), so a reply depends on the earlier requests of every connection: `get k; set k v; get k` answers the same arguments twice with different replies. `Store.Store.Handle` models that stateful handler on its own; the two are not composed.
- `test_commands.py`:
  - Process handling (`subprocess`, `shlex.split`, `time.sleep`, `terminate`) is not modelled. Running a command is a function parameter of `Corpus.CheckCases`.
  - Colour and progress output is not modelled.
  - The failed `assert` is modelled as a verdict.
- Corpus.CasesFold: the embedded text is stated as a list of cases. It is not stated as the raw string literal. `Corpus.ParseTranscript` proves that parsing the text of any such transcript gives the same result. Expected output 6 is stated as its six lines joined with "\n".
- Floating point:
  - `out::dbl` is not modelled.
  - Zset scores are reals, so NaN does not arise.
- Memory management: `free`, `delete`, and `CMapDestroy` releasing slot arrays are not modelled. Nodes are never reused.
- `map/c/map.c` repeats the static helpers of `table/c/table.c`. They are modelled once, in `HashTable`. The C++ twins `map/cxx/map.cxx` and `table/cxx/table.cxx` are not modelled separately. Their only behavioural difference, `detach` of a null link, is `HashTable.DetachLink`.
- The defect of `table/cxx/table.cxx:28` (`while (&from)` is always true) is not modelled. The model follows the intended loop.
- The defect of `client/client.cxx:33` (copying `len` bytes from a 4-byte count) is not modelled. The count is written as 4 bytes.
- `avl/cxx/avl.cxx` is not part of this model. It wraps a library tree whose code is not visible.
- Byte order and character signedness: the model assumes a little-endian machine and signed `char`.
- ZSet.ZSet.New: the source's `len` argument is not modelled; the model assumes `len == name.size()`. With a shorter `len`, `zNew` stores only `name[..len]` but hashes the whole name (zset/zset.cxx:62-70).
- ZSet.ZSet.LookUp: assumes `len == name.size()`. With another `len`, `zLookUp` hashes the whole name but compares `len` bytes (zset/zset.cxx:74-84).
- ZSet.ZSet.Add: assumes `len == name.size()`; with another `len` it inherits the mismatch of `zLookUp` and `zNew` (zset/zset.cxx:96-108).
- ZSet.ZSet.Pop: assumes `len == name.size()`. With another `len`, `zPop` hashes the whole name but compares `len` bytes (zset/zset.cxx:110-127).
- ZSet.ZSet.Query: assumes `len == name.size()`. With another `len`, `zQuery` orders the key by its first `len` bytes (zset/zset.cxx:129-142, through `zLess` at 23-37).
- Zset order: `zLess` compares names by the common prefix and then by length. The model states this as the lexicographic order on byte strings.

## Findings

| source | as written | input that shows it | evidently intended | confidence | as-written member | corrected member |
|---|---|---|---|---|---|---|
| client/client.cxx:20-28 | `len` is a `uint32_t`, so `len += 4 + s.size()` wraps modulo 2^32 before the `len > K_MAX_MSG` check | one argument of 2^32 - 8 bytes: `len` becomes 0, the check passes, and the copy loop writes past the 4 + 4096-byte buffer | refuse every request whose true length exceeds 4096 | low; needs a 4 GiB argument; not executed | Client.WrappedLengthAdmitsOversizedRequest | Client.SendRequest |
