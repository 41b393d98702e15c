# A proved model of the rediskrazy data store

A Dafny model of the in-memory store, its persistence, its event loop and thread pool, the wire format, and the SQL front
end, with proofs of the properties the parts promise each other. `dafny verify dfyconfig.toml` checks all of it.

## How it is organised

| files | part of the system |
|---|---|
| `Sds`, `SdsBuffer`, `SplitArgs`, `Text` | byte strings, the growing buffer, argument splitting, number texts |
| `DictSpec`, `DictTable`, `Dict`, `Walk` | the incrementally rehashed dictionary: the map it stands for, the invariant of its two tables, the class, and walks over both tables |
| `AvlTree`, `Avl`, `ZSet` | the AVL tree as a value and as linked nodes, and the sorted set that keeps tree and dictionary in step |
| `ExpHeap`, `Keyspace`, `KeyspaceLaws`, `CommandLaws`, `Cron`, `Stores`, `Server` | deadlines, what each command does to the data set, what that means to a client, active expiry, the dictionaries whose values are objects, and the handlers over them |
| `Resp`, `Aof`, `Rdb`, `RdbSave`, `Client` | the wire format, the append-only log, the snapshot file, the Python reply parser |
| `Tpool`, `AePoll`, `AeTime` | the thread pool as a transition system, the poll backend with the file event table, the timers |
| `Translator`, `QueryProcessor`, `SqlRow` | SQL to commands, replies to rows, and the way of a row there and back |

Code that works in place is a class or a method with loops, proved against functions on values; the laws are lemmas about
those functions. The clock is a parameter, read once per command, timer pass or save. The hash is the program's djb2, though
no proof depends on which function it is. Scores are integers in the order of the doubles they stand for, without NaN;
`atof` is an arbitrary function. Bytes are characters.

## What the proofs found

- A key whose deadline is the current second is still served, but INCR, DECR and APPEND then drop its deadline
  (`KeyspaceLaws.DeadlineKept`, `KeyspaceLaws.LastSecondAppend`), and the snapshot already leaves it out
  (`RdbSave.SnapshotLoses`, `RdbSave.LastSecondNotSaved`).
- EXPIRE with zero or negative seconds makes a key permanent (`KeyspaceLaws.ExpireLaw`).
- DEL leaves a hash behind when the key also holds a string or sorted set (`KeyspaceLaws.DeleteLaw`), and replaying a SET then
  loses that hash (`KeyspaceLaws.SetReplayAndHashes`).
- DEL counts a key twice that is named twice and holds a hash beside a string or sorted set (`CommandLaws.DelLaw`).
- The log record of FLUSHDB ends the loading of the log (`Aof.FlushEndsTheLog`).
- The cron's budget counts only keys deleted in their last second: older ones are removed by the read that looks for them
  (`Cron.CountsLastSecond`). So one call can remove any number of keys (`Cron.BudgetMisses`), and stays within 20 exactly
  when no more are due or none is past its last second (`Cron.BudgetHolds`).

## Model

| member | source | states |
|---|---|---|
| Dict.HashFn | src_c/backend/dict.c:7-14 | the byte loop computes djb2 in 64 bits, cut to 32 |
| DictTable.HashIsDjb2 | src_c/backend/dict.c:7-14 | 5381, then times 33 plus the next byte, modulo 2 to the 32, although the accumulator is wider |
| DictTable.MaskIsRemainder | src_c/backend/dict.c:104-104 | hash and mask is the remainder by the table size |
| Dict.Dict.Rehash | src_c/backend/dict.c:30-69 | moving up to n buckets changes no key, value or expiry, keeps both counts true, ends exactly when no rehash is left, and never takes the out-of-range exit (line 38-41) |
| Dict.Dict.MoveBucket | src_c/backend/dict.c:44-57 | one bucket is relinked entry by entry into the new table, each entry to the head of its chain, and the map stays the same |
| Dict.Dict.RehashStep | src_c/backend/dict.c:71-73 | one step moves at least one bucket on, or finishes with room to spare |
| Dict.Dict.Expand | src_c/backend/dict.c:75-94 | a first table has 4 buckets; a full one gets a partner of exactly twice its size and a rehash starts; the map is unchanged |
| Dict.Dict.LookupNode | src_c/backend/dict.c:96-115 | finds a key exactly when the map has it, in whichever table holds it, after moving one bucket |
| Dict.Dict.Put | src_c/backend/dict.c:117-146 | the map after a put is the old one with the key set to value and deadline; a put during a rehash moves it on by at least two buckets or ends it with a quarter of the new table free, as the run theorem needs |
| Dict.Dict.ReplaceNode | src_c/backend/dict.c:126-132 | the node found gets a new value and deadline, nothing else changes |
| Dict.Dict.PushNode | src_c/backend/dict.c:134-145 | a new entry becomes the head of its chain, in the new table while a rehash is under way |
| Dict.Dict.Get | src_c/backend/dict.c:148-156 | returns the live value, and removes a key it finds expired, and nothing else changes |
| Dict.Dict.GetExpiry | src_c/backend/dict.c:158-166 | returns the deadline of a live key, with the same lazy removal |
| Dict.Dict.SetExpiry | src_c/backend/dict.c:168-173 | sets the deadline of a stored key without looking at the old one, and reports whether it was there |
| Dict.Dict.Delete | src_c/backend/dict.c:175-200 | removes exactly the key |
| Dict.Dict.Clear | src_c/backend/dict.c:202-218 | leaves the empty map and no table |
| Dict.Dict.ActiveExpire | src_c/backend/dict.c:220-254 | whatever buckets are sampled, only expired entries are removed, and exactly as many as reported |
| DictTable.LoadAtMostOne | src_c/backend/dict.c:117-146 | in every reachable state the load is at most one, and strictly below one while two tables are live |
| DictTable.InOneChain | src_c/backend/dict.c:96-115 | each key is in exactly one chain of one table, at hash and mask, and the entry there is the one the map stands for |
| DictTable.InvMoveBucket | src_c/backend/dict.c:44-57 | moving a bucket keeps the whole invariant: placement, distinct keys, true counts, emptied buckets below the index, the load potential |
| DictTable.InvInsert | src_c/backend/dict.c:134-145 | inserting a new entry at its bucket keeps the invariant and adds exactly that key |
| DictTable.InvRemove | src_c/backend/dict.c:185-197 | unlinking an entry keeps the invariant and removes exactly that key |
| DictTable.InvReplace | src_c/backend/dict.c:126-132 | overwriting an entry keeps the invariant and changes exactly that key |
| DictTable.InvGrow | src_c/backend/dict.c:81-93 | starting a rehash from a full table establishes the load potential that later puts preserve |
| DictTable.InvFinish | src_c/backend/dict.c:61-66 | once the old table is empty the new one alone stands for the map, with room for another entry |
| DictTable.MoveAllSpec | src_c/backend/dict.c:44-55 | relinking a chain adds its entries to the new table and disturbs none there |
| DictTable.RehashEndsInTime | src_c/backend/dict.c:117-146 | along any calls made during one rehash, puts and others but dict_clear: while it lasts there have been fewer puts than half the old table's buckets and the load is below one; when it is over the new table has room, so no growth can have started in between |
| AvlTree.TotalOrder | src_c/backend/avl.c:48-52 | the comparison by score and then key is a strict total order |
| AvlTree.RotationsKeepOrder | src_c/backend/avl.c:22-46 | a rotation keeps the order and the set of members |
| AvlTree.InsertKeepsAvl | src_c/backend/avl.c:54-96 | an insertion yields an ordered tree with exact heights and balances within one, holding the old members and the new one, at most one level higher |
| AvlTree.RotationsAreSafe | src_c/backend/avl.c:76-93 | the children a rotation after an insertion dereferences exist |
| AvlTree.DeleteKeepsAvl | src_c/backend/avl.c:104-160 | a deletion yields an ordered, exact, balanced tree without the member, at most one level lower |
| AvlTree.DeleteRotationsAreSafe | src_c/backend/avl.c:140-157 | the children a rotation after a deletion dereferences exist |
| AvlTree.MinIsLeast | src_c/backend/avl.c:98-102 | the leftmost member is the least |
| AvlTree.InOrderIsSorted | src_c/backend/avl.c:197-206 | the in-order sequence is strictly sorted and lists each member once |
| AvlTree.SortedIsUnique | src_c/backend/avl.c:197-206 | a set of members has one sorted sequence, so what a traversal emits does not depend on the tree's shape |
| AvlTree.RunIsAvl | src_c/backend/avl.c:183-195 | after any run of insertions and deletions the tree is a valid AVL tree over exactly the members the run leaves |
| AvlTree.MinimalSize | src_c/backend/avl.c:54-160 | a tree of height h has at least Fib(h+2)-1 nodes |
| AvlTree.HeightIsLogarithmic | src_c/backend/avl.c:54-160 | 2 to the height is at most (count+1) squared |
| Avl.RotateRightNode | src_c/backend/avl.c:22-33 | relinking the two nodes is the rotation of the tree value, over the same nodes |
| Avl.RotateLeftNode | src_c/backend/avl.c:35-46 | likewise to the left |
| Avl.InsertNode | src_c/backend/avl.c:54-96 | the recursive insertion in place is the insertion of the tree value, and reports whether the member was new |
| Avl.MinValueNode | src_c/backend/avl.c:98-102 | the loop down the left links reaches the least member |
| Avl.DeleteNode | src_c/backend/avl.c:104-160 | the recursive deletion in place is the deletion of the tree value, over no new nodes, and reports whether the member was there |
| Avl.CopyNode | src_c/backend/avl.c:115-121 | copying an only child over its parent leaves the child's subtree in the parent's place |
| Avl.GetRankRec | src_c/backend/avl.c:208-218 | the counting descent finds the node at an index of the sorted sequence |
| Avl.AVLTree.Insert | src_c/backend/avl.c:183-188 | members gain exactly the pair, and the count stays equal to their number |
| Avl.AVLTree.Delete | src_c/backend/avl.c:190-195 | members lose exactly the pair, and the count stays equal to their number |
| Avl.AVLTree.GetByRank | src_c/backend/avl.c:220-224 | the node at a rank, or null exactly when the rank is out of range |
| Avl.Outcome | src_c/backend/avl.c:183-195 | one insertion or deletion changes members and size by exactly the requested pair |
| ZSet.ZSet.Add | src_c/backend/zset.c:22-60 | dictionary and tree change together: the member has the new score in both, and 1 is returned exactly for a new member |
| ZSet.ZSet.Rem | src_c/backend/zset.c:62-72 | the member leaves both structures, and 1 is returned exactly if it was there |
| ZSet.ZSet.GetScore | src_c/backend/zset.c:74-80 | the stored score, or nothing |
| ZSet.ZSet.Card | src_c/backend/zset.c:82-84 | the tree's count is the number of members in the dictionary |
| ZSet.ZSet.Range | src_c/backend/zset.c:103-120 | the callback emits exactly the normalised slice of the sorted sequence, for all positive and negative indices |
| ZSet.ZSet.Rank | src_c/backend/zset.c:138-149 | the number of pairs before the member's, or -1 exactly when it is absent |
| ZSet.RangeCtx.RangeCb | src_c/backend/zset.c:95-101 | one callback emits its member exactly if the running index lies in the range |
| ZSet.RankCtx.RankCb | src_c/backend/zset.c:129-136 | one callback counts until the target is met |
| ZSet.AgreeAdd | src_c/backend/zset.c:22-60 | agreement of dictionary and tree survives an addition or a change of score |
| ZSet.AgreeRemove | src_c/backend/zset.c:62-72 | agreement survives a removal |
| ZSet.AgreeCard | src_c/backend/zset.c:82-84 | agreeing dictionary and tree have equally many entries |
| ZSet.WindowIsSlice | src_c/backend/zset.c:95-120 | counting through a traversal and keeping start..end gives the slice |
| Stores.ZsetRange | src_c/backend/server.c:541-559 | the ZRANGE branch on a sorted set: the count it announces by its own normalisation is the number of members it then sends, and those are the slice of the sorted sequence, for every start and end |
| ZSet.AgreeSorted | src_c/backend/zset.c:103-149 | the tree of a sorted set holds exactly the members of its dictionary, and lists them in the one order by score and name |
| ZSet.IndexCountsBefore | src_c/backend/zset.c:129-149 | in a sorted sequence the index of a member is the number of members before it |
| ExpHeap.ExpHeap.Push | src_c/backend/expheap.c:51-62 | the heap stays a heap and gains exactly the entry |
| ExpHeap.ExpHeap.Peek | src_c/backend/expheap.c:64-67 | a minimum, or nothing exactly when empty |
| ExpHeap.ExpHeap.Pop | src_c/backend/expheap.c:69-82 | returns a minimum and removes exactly it; an empty heap yields the zero entry |
| ExpHeap.ExpHeap.Remove | src_c/backend/expheap.c:84-104 | removes exactly one entry of the key, if there is one, and restores order from the hole |
| ExpHeap.ExpHeap.SiftUp | src_c/backend/expheap.c:11-21 | repairs an entry too early for its parent, permuting the entries |
| ExpHeap.ExpHeap.SiftDown | src_c/backend/expheap.c:23-43 | repairs an entry too late for its children, permuting the entries |
| ExpHeap.ExpHeap.Settle | src_c/backend/expheap.c:94-99 | choosing by the parent alone between up and down restores order |
| ExpHeap.RootIsLeast | src_c/backend/expheap.c:64-67 | order between parent and child makes the root a minimum of all entries |
| ExpHeap.PopsAreSorted | src_c/backend/expheap.c:69-82 | repeated pops come out by expiry and are entries of the heap, each taken once |
| ExpHeap.Drain | src_c/backend/server.c:1009-1031 | popping until the heap is empty gives back all its entries, in order of expiry |
| Resp.RespParseArray | src_c/backend/resp.c:6-53 | the parsing loop computes the parse that the round-trip laws are about, on every input |
| Resp.ReadLine | src_c/backend/resp.c:12-14 | the line loop stops at a carriage return, the end of input or 63 bytes |
| Resp.ReadItems | src_c/backend/resp.c:24-49 | the loop over the bulk strings, with its incomplete and invalid exits |
| Resp.EncodeCmd | librediskrazy/client.py:119-128 | the loop over the parts builds the command array |
| Resp.ParseEncode | src_c/backend/resp.c:6-53 | an encoded non-empty argument list, followed by anything, parses to itself and consumes exactly its length |
| Resp.ParsePrefix | src_c/backend/resp.c:6-53 | every strict prefix of an encoded command is reported incomplete |
| Resp.LengthsFit | src_c/backend/resp.c:11-17 | no length of an encoding within an int overflows the 64-byte line buffer |
| Resp.Refused | src_c/backend/resp.c:6-35 | text that is no array, or an array with something other than a bulk string behind whole ones, is refused |
| Resp.WireExample | librediskrazy/client.py:119-128 | the wire format, letter by letter |
| Resp.BulkParses | src_c/backend/resp.c:25-48 | one bulk string, whatever follows |
| Resp.BulkCut | src_c/backend/resp.c:25-48 | one bulk string, cut anywhere, is incomplete |
| Text.AtoiOfDec | src_c/backend/resp.c:17-17 | atoi reads back what %zu printed |
| Text.AtoiReads | src_c/backend/resp.c:17-17 | atoi skips blanks, takes a sign, and stops at the first byte that is no digit |
| Keyspace.ExecKeepsKeys | src_c/backend/server.c:311-841 | every command keeps strings and sorted sets disjoint and every deadline of theirs scheduled in the heap |
| Keyspace.StringWritesKeep | src_c/backend/server.c:323-336 | SET, SETNX, INCR, DECR and APPEND keep it |
| Keyspace.ZsetCommandsKeep | src_c/backend/server.c:471-505 | ZADD, ZREM and the sorted-set reads keep it |
| Keyspace.ExpireKeeps | src_c/backend/server.c:437-460 | EXPIRE keeps it, stale heap entries and all |
| Keyspace.DeleteKeyKeeps | src_c/backend/server.c:116-159 | delete_key keeps it and leaves the key in neither dictionary |
| KeyspaceLaws.OnlyNamedKeys | src_c/backend/server.c:311-841 | no command but FLUSHDB touches a key it does not name |
| KeyspaceLaws.SetThenGet | src_c/backend/server.c:323-336 | after SET, GET answers the text and TTL the seconds left until those given after EX, in either case, are over; a hash under the key survives exactly when a string or sorted set was deleted in its place |
| KeyspaceLaws.ReadLaws | src_c/backend/server.c:337-469 | GET, TTL and FLUSHDB as a client sees them: GET answers the text served, TTL exactly how long a key will be served (-2, -1 or the seconds, to the last inclusive), neither changes anything served, and after FLUSHDB no string or sorted set is |
| KeyspaceLaws.FlushLaw | src_c/backend/server.c:461-469 | after FLUSHDB, GET and TTL find nothing under any key, and HGETALL answers as before |
| KeyspaceLaws.IncrCounts | src_c/backend/server.c:387-412 | INCR and DECR store and report the old number, or zero, plus or minus one |
| KeyspaceLaws.DeadlineKept | src_c/backend/server.c:401-405 | INCR, DECR and APPEND keep the deadline if and only if the key has none or is not in its last second |
| KeyspaceLaws.LastSecondAppend | src_c/backend/server.c:604-608 | an input where they do not: appended to in its last second, a text lives for ever |
| KeyspaceLaws.DeleteLaw | src_c/backend/server.c:116-159 | DEL counts a held key once, and the key is gone if and only if it did not hold a hash beside a string or sorted set |
| KeyspaceLaws.SetnxLaw | src_c/backend/server.c:616-627 | SETNX stores exactly when nothing is held, and EXISTS agrees |
| KeyspaceLaws.ExpireLaw | src_c/backend/server.c:437-454 | EXPIRE ends a string, or else a sorted set, after its seconds if they are positive, makes it permanent otherwise, and changes nothing if there is neither |
| KeyspaceLaws.ZaddLaw | src_c/backend/server.c:471-535 | ZADD sets one score, keeps the others and reports a new member; ZSCORE then answers that score and ZCARD the new size as long as the key is served |
| CommandLaws.HsetLaw | src_c/backend/server.c:752-841 | HSET on any key: every field named has its last given value, every other field of the hash served there keeps its own, there are no others, the deadline stays, the reply is the number of fields it did not have; HGETALL then answers exactly that hash while it is served |
| CommandLaws.HgetallLaw | src_c/backend/server.c:795-841 | HGETALL answers the hash served under the key, or an empty one, and changes nothing served |
| CommandLaws.DelLaw | src_c/backend/server.c:363-374 | DEL with any list of keys, repeated or not: each mention takes one value of its key while there is one, string or sorted set before hash, and counts exactly then; what is not mentioned stays |
| CommandLaws.DelDistinct | src_c/backend/server.c:363-374 | for distinct keys: the reply is the number that held something, and a named key holds something afterwards if and only if it held a hash beside a string or sorted set |
| CommandLaws.ExistsLaw | src_c/backend/server.c:375-386 | EXISTS counts every mention of a key that holds something, and changes nothing served |
| CommandLaws.ZreadLaw | src_c/backend/server.c:506-702 | ZRANGE answers, by score and then name, exactly the members whose number of smaller members lies between the two places, negative ones counted from the size; ZRANK answers that number, ZSCORE the score, ZCARD the size |
| CommandLaws.RankThenRange | src_c/backend/server.c:530-702 | ZRANGE at the place ZRANK answers gives that member alone |
| CommandLaws.RangeAll | src_c/backend/server.c:530-562 | ZRANGE 0 -1 answers every member once |
| CommandLaws.RewriteLaw | src_c/backend/server.c:387-615 | APPEND, INCR and DECR: the text served, or an empty one, longer by the argument, or its number moved by one; the reply says the new length or number; a deadline still to come stays, no other value changes |
| CommandLaws.ZremLaw | src_c/backend/server.c:628-659 | ZREM removes exactly the named members, answers how many there were, and leaves scores, deadline and other keys alone |
| CommandLaws.NameSpells | src_c/backend/server.c:318-318 | a command is recognised in upper or lower case, up to the first NUL of its name |
| CommandLaws.ArgumentsLaw | src_c/backend/server.c:311-841 | the least number of words of each command: with fewer, or half a pair for HSET, it is refused and nothing changes; other names do nothing |
| CommandLaws.HeapLaw | src_c/backend/server.c:92-460 | what each command schedules: a SET with seconds, an EXPIRE that finds its key, a text rewritten before its deadline, one entry each; nothing else, and nothing is unscheduled |
| CommandLaws.ExpireLogged | src_c/backend/server.c:455-459 | an EXPIRE that found its key is logged as itself if its words hold no NUL, and not otherwise |
| CommandLaws.HsetLogged | src_c/backend/server.c:784-793 | an HSET is logged as itself and, replayed on the same hash at any time, leaves the same fields |
| KeyspaceLaws.RemovedMembers | src_c/backend/server.c:641-644 | ZREM removes exactly the named members and counts those that were there |
| KeyspaceLaws.StoredFields | src_c/backend/server.c:770-779 | HSET leaves the last value given for each field and counts the new fields |
| KeyspaceLaws.SetReplayAndHashes | src_c/backend/server.c:323-336 | replaying the log of a SET reproduces the hashes if and only if the key did not hold a hash beside its string or sorted set |
| KeyspaceLaws.SetWritesRecords | src_c/backend/server.c:92-159 | the records a SET appends to the log |
| Server.Server.SetKv | src_c/backend/server.c:92-109 | dict_put, heap push and the log record written piece by piece, on the real objects: string, deadline and log are those of the specification |
| Server.Server.DeleteKey | src_c/backend/server.c:116-159 | string, sorted set, hash in this order in the real dictionaries, one of them deleted, with its log record |
| Server.Server.ExistsKey | src_c/backend/server.c:286-291 | 1 exactly when a string, sorted set or hash is served under the key, and nothing served under any key changes, though expired entries go and buckets move |
| Server.Server.CmdSet | src_c/backend/server.c:323-336 | SET with its EX option on the real dictionaries |
| Server.Server.CmdGet | src_c/backend/server.c:337-362 | answers the text served, refuses exactly a served sorted set, and changes nothing served under any key |
| Server.Server.CmdDel | src_c/backend/server.c:363-374 | the loop over the keys on the real dictionaries: each mention takes one value of its key while there is one, string or sorted set before hash, and is counted exactly then |
| Server.Server.CmdExists | src_c/backend/server.c:375-386 | the loop over the keys: the number of mentions of a key that holds something; nothing served changes |
| Server.Server.CmdIncr | src_c/backend/server.c:387-412 | the number in the text served, or zero, moved by one, stored and answered; a deadline still to come stays; a sorted set is refused |
| Server.Server.CmdTtl | src_c/backend/server.c:413-436 | how long the string or sorted set will be served: -2 if it is not, -1 for ever, else the seconds to the last inclusive; nothing served changes |
| Server.Server.CmdExpire | src_c/backend/server.c:437-460 | EXPIRE on the real string dictionary, else on that of sorted sets, with its heap entry and log record |
| Server.Server.CmdFlush | src_c/backend/server.c:461-469 | afterwards no string or sorted set is served under any key at any time; hashes and heap entries stay |
| Server.Server.CmdZadd | src_c/backend/server.c:471-505 | finds or creates the object and adds to its tree and dictionary: the score is set, other members, the deadline and all other keys stay, a new member is reported, a string's key refused |
| Server.Server.CmdAppend | src_c/backend/server.c:587-615 | the text served, or an empty one, longer by the argument, and its new length; a deadline still to come stays; a sorted set is refused |
| Server.Server.CmdSetnx | src_c/backend/server.c:616-627 | SETNX on the real dictionaries |
| Server.Server.CmdZrem | src_c/backend/server.c:628-659 | the loop of zset_rem over the members of the real object, and the log loop: exactly the named members go and are counted, scores and deadline stay |
| Server.Server.CmdZread | src_c/backend/server.c:506-702 | on the real object: ZRANGE sends exactly the members with a number of smaller members between the two places, by score and then name, ZRANK answers that number, ZSCORE the score, ZCARD the size; nothing served changes |
| Server.Server.CmdHgetall | src_c/backend/server.c:795-841 | the text sent lists every field and value of the real inner dictionary, announced by its true count |
| Server.Server.CmdHset | src_c/backend/server.c:752-794 | finds or creates the inner dictionary and runs dict_get and dict_put over the pairs: fields named have their last value, others of the hash keep theirs, the new ones are counted, the deadline stays; with its log record |
| Server.Server.HandleCommand | src_c/backend/server.c:311-841 | the dispatch: over real dictionaries, sorted sets, hashes and heap, none sharing an object with another, state and reply of every command are those of the specification that the laws are about |
| Server.Server.ServerCron | src_c/backend/server.c:1003-1035 | the heap loop and the sampling are exactly the tick of the run theorem; only due strings and sorted sets are deleted, and unless the budget of 20 is used up none due is left |
| Server.Server.CronDelete | src_c/backend/server.c:1012-1027 | one popped deadline: exactly its key stops being due, it is counted if and only if this is the key's last second, nothing undue is dropped and the key invariant stays |
| Server.Server.LoadAof | src_c/backend/server.c:1098-1111 | the loop replays exactly the complete commands at the head of the file and terminates |
| Server.Server.LoadRdb | src_c/backend/rdb.c:153-211 | the loading loop, by dict_put and zset_add into the real dictionaries: they end up with exactly what the file's records say, on every file, and the heap and the log stay |
| Server.Server.SaveRdb | src_c/backend/rdb.c:67-151 | the image of the server's own dictionaries loads to its unexpired strings and sorted sets and all its hashes |
| Server.Start | src_c/backend/server.c:1134-1139 | a started server holds no key, and none of its objects is shared |
| Stores.Zsets.Get | src_c/backend/server.c:482-485 | the pointer stored under a served key leads to an object whose contents the map shows; expired entries go |
| Stores.Zsets.Create | src_c/backend/server.c:485-490 | a new object under the key, sharing nothing with the others |
| Stores.Zsets.Add | src_c/backend/server.c:493-493 | work through one pointer changes that key's contents and no other key's |
| Stores.Hashes.PutField | src_c/backend/server.c:772-778 | likewise for the inner dictionary of a hash |
| Stores.ZWithout | src_c/backend/server.c:482-493 | an object taken out shares nothing with the rest, and the rest still stands for its keys |
| Stores.ZWith | src_c/backend/server.c:482-493 | put back with new contents, it stands for its key and nothing else changes |
| Cron.PopDeadlineKeeps | src_c/backend/server.c:1012-1027 | popping a deadline keeps the key invariant and drops only due keys |
| Cron.NothingDue | src_c/backend/server.c:1009-1031 | when no scheduled deadline has come, no key is due |
| Cron.SamplingKeeps | src_c/backend/server.c:1033-1035 | the random fallback keeps both |
| Cron.RunKeepsKeys | src_c/backend/server.c:311-1043 | in every state that commands and timer ticks can reach, in any order and at any times, no key is both a string and a sorted set and every deadline is scheduled; and a tick that does not use up its budget leaves no key that is due |
| Cron.TickKeeps | src_c/backend/server.c:1003-1043 | one call keeps the key invariant, drops only due keys, and under budget leaves none |
| Cron.CountsLastSecond | src_c/backend/server.c:1014-1026 | a popped entry counts as a deletion if and only if its key is in its last second; older keys are removed uncounted |
| Cron.LoopRemoves | src_c/backend/server.c:1009-1031 | the keys the heap loop removes are those it counts and besides every older one it comes across |
| Cron.BudgetHolds | src_c/backend/server.c:1009-1035 | a call removes at most 20 keys, whatever the sampling picks, if and only if at most 20 are due or none is past its last second |
| Cron.BudgetMisses | src_c/backend/server.c:1009-1035 | an input for every number: that many keys past their last second all go in one call, which counts none |
| Aof.TruncatedLog | src_c/backend/server.c:1098-1111 | a log of encoded commands cut at any byte yields exactly the commands wholly before the cut |
| Aof.WholeLog | src_c/backend/server.c:1098-1111 | a whole log yields all of them |
| Aof.FlushEndsTheLog | src_c/backend/server.c:465-467 | after the FLUSHDB record, one line end too long, nothing more of the log is ever loaded, and everything before it is |
| Aof.ExecReproduces | src_c/backend/server.c:92-159 | the records of any command in scope, replayed on a mirror of the state, give a mirror of the state after it |
| Aof.RunReproducible | src_c/backend/server.c:311-841 | so do the records of any run of such commands |
| Aof.ReplayReproducesRun | src_c/backend/server.c:1080-1114 | loading the log of any run without lifetimes, at any later times, gives exactly the live strings and sorted sets |
| Aof.ZaddReproduces | src_c/backend/server.c:495-499 | the ZADD record, printed with percent-s, is an encoded command when its texts hold no NUL, and replays to the same score |
| Aof.ZremReplays | src_c/backend/server.c:646-650 | one ZREM record per requested member replays to the same set |
| Aof.HsetReproduces | src_c/backend/server.c:784-793 | an HSET record disturbs neither strings nor sorted sets |
| Tpool.NextKeepsInv | src_c/backend/tpool.c:41-180 | every step of every thread keeps the queue in submission order, each started task run by one worker or done, and no worker asleep while tasks outnumber awake idle workers |
| Tpool.RunKeepsInv | src_c/backend/tpool.c:41-180 | hence so does every interleaving, spurious wake-ups included |
| Tpool.PoolIsCorrect | src_c/backend/tpool.c:41-180 | tasks start first come first served and run exactly once, and when all workers have exited every submitted task is done |
| Tpool.NoLostWakeup | src_c/backend/tpool.c:115-145 | a sleeping worker means no shutdown and enough awake workers for the queue |
| Tpool.ShutdownTerminates | src_c/backend/tpool.c:147-180 | after shutdown every step brings the pool nearer to the end, and some step is possible until all workers have exited |
| Tpool.TakeKeeps | src_c/backend/tpool.c:51-76 | the worker's critical section |
| AePoll.ApiState.AddEvent | src_c/backend/ae_poll.c:76-94 | the descriptor's interest widens by the mask, no other changes, and the capacity check never fails |
| AePoll.ApiState.DelEvent | src_c/backend/ae_poll.c:96-116 | the descriptor's interest narrows by the mask, no other changes, and an empty entry is replaced by the last |
| AePoll.ApiState.Resize | src_c/backend/ae_poll.c:51-67 | every interest survives, if those beyond the new size were empty |
| AePoll.ApiState.Poll | src_c/backend/ae_poll.c:118-143 | the fired array lists the ready descriptors in order |
| AePoll.RoomForNew | src_c/backend/ae_poll.c:80-83 | by pigeonhole an unregistered descriptor leaves room in the dense array |
| AePoll.Dropped | src_c/backend/ae_poll.c:106-115 | swap-remove keeps both arrays mutually inverse and touches nobody else's interest |
| AePoll.MasksAreBits | src_c/backend/ae_poll.c:76-116 | masks widen and narrow as the sets of their bits do |
| AePoll.FiredExactly | src_c/backend/ae_poll.c:126-141 | exactly the descriptors with something to report are fired, each once |
| AePoll.EventLoop.CreateFileEvent | src_c/backend/ae.c:153-171 | the table gains the mask, maxfd stays the largest registered descriptor, and only an out-of-range descriptor is refused |
| AePoll.EventLoop.DeleteFileEvent | src_c/backend/ae.c:173-187 | the table loses the mask, and the search downwards finds the new largest registered descriptor |
| AePoll.EventLoop.ResizeEventLoop | src_c/backend/ae.c:128-151 | refused exactly when a registered descriptor would not fit; otherwise every mask survives |
| AeTime.AddIsExact | src_c/backend/ae.c:70-81 | now plus delay is exact for every delay, and normalised if and only if the truncated remainder does not go below zero |
| AeTime.BeforeIsEarlier | src_c/backend/ae.c:240-242 | on normalised times the comparison by fields is the order of time |
| AeTime.TimerLoop.CreateTimeEvent | src_c/backend/ae.c:194-213 | the new timer is at the head with a fresh identifier |
| AeTime.TimerLoop.DeleteTimeEvent | src_c/backend/ae.c:215-233 | the timer with the identifier is unlinked, and the result tells whether there was one |
| AeTime.TimerLoop.SearchNearestTimer | src_c/backend/ae.c:235-247 | a timer that none precedes, or nothing exactly when there is none |
| AeTime.TimerLoop.PollTimeout | src_c/backend/ae.c:292-329 | the sleep ends exactly when the nearest timer is due, so none is overshot; without timers it is endless |
| AeTime.TimerLoop.Fire | src_c/backend/ae.c:271-281 | one due timer runs behind the timers it creates, and is deleted or due again exactly as many milliseconds after now as its callback returned |
| AeTime.TimerLoop.ProcessTimeEvents | src_c/backend/ae.c:249-290 | at a fixed clock the restarting pass terminates and runs exactly the timers due at its start, in list order; afterwards each of those is gone if it returned AE_NOMORE and otherwise normalised and due at now plus what it returned, to the millisecond; the others are untouched, each timer asked for is there at its time, and there are no more |
| AeTime.RanExactly | src_c/backend/ae.c:249-290 | each timer due at the start runs exactly once |
| AeTime.GoneExactly | src_c/backend/ae.c:277-281 | a timer is gone if and only if it was due and returned AE_NOMORE; one not due stays as it is |
| AeTime.PassIsTold | src_c/backend/ae.c:249-290 | what the pass leaves, said of each timer by its identifier: untouched, gone, or due again at exactly now plus its callback's value |
| AeTime.DueMeans | src_c/backend/ae.c:268-269 | a timer is due exactly when its time in milliseconds has come |
| AeTime.RanInOrder | src_c/backend/ae.c:249-290 | due timers run in the order of the list |
| AeTime.StayNotDue | src_c/backend/ae.c:277-278 | no timer that stays is due, since delays are positive |
| AeTime.UniqueAfterPass | src_c/backend/ae.c:194-213 | identifiers stay unique |
| AeTime.PassedOver | src_c/backend/ae.c:260-266 | a restart passes over everything already dealt with |
| Sds.CompareEqual | src_c/backend/sds.c:131-138 | the comparison is zero exactly on equal strings |
| Sds.CompareAntisymmetric | src_c/backend/sds.c:131-138 | swapping the arguments swaps the sign |
| Sds.CompareTransitive | src_c/backend/sds.c:131-138 | the order is transitive |
| Sds.CompareIsLexical | src_c/backend/sds.c:131-138 | the comparison is negative exactly in dictionary order: where the texts part, the first is at its end or has the smaller byte |
| SdsBuffer.SdsString.MakeRoomFor | src_c/backend/sds.c:56-77 | room for the bytes asked for, contents and terminator kept, capacity doubled or a megabyte larger |
| SdsBuffer.SdsString.CatLen | src_c/backend/sds.c:79-93 | contents are the old ones followed by the new bytes, terminated, with length and free space in step |
| SdsBuffer.SdsString.CpyLen | src_c/backend/sds.c:99-115 | contents are the new bytes, in the old room if it suffices |
| SdsBuffer.CopyingIsLinear | src_c/backend/sds.c:61-70 | over any run of appends below two megabytes, growth copies no more bytes than the capacity it gains |
| SplitArgs.SdsSplitArgs | src_c/backend/sds.c:152-184 | the cursor loops compute the split that the round trip is about, on every line |
| SplitArgs.SplitJoin | src_c/backend/sds.c:152-184 | splitting undoes joining with single spaces, for plain arguments |
| SplitArgs.OnlyPlainSurvives | src_c/backend/sds.c:159-176 | an argument survives on its own if and only if it is non-empty, free of blanks and NULs and does not start with a quote |
| SplitArgs.QuotesProtect | src_c/backend/sds.c:159-170 | quotes of either kind hold one argument together, blanks and all, and a missing closing quote is forgiven |
| Translator.TranslateQuery | src_c/query_processor/sql_translator.c:12-123 | SELECT and INSERT with all their errors: the command text and headers |
| Translator.InsertRow | src_c/query_processor/sql_translator.c:76-108 | the loops over columns and values build exactly the joined HSET arguments, keyed by the explicit key or the last primary column |
| Translator.InsertSplits | src_c/query_processor/sql_translator.c:93-107 | the INSERT text splits into exactly HSET, db:table:pk and the pairs, with an argument count HSET accepts |
| Translator.SelectSplits | src_c/query_processor/sql_translator.c:45-48 | the SELECT text splits into HGETALL and the same key, if it fits the 1024-byte buffer |
| Translator.RowKeyIsPlain | src_c/query_processor/sql_lexer.c:21-23 | identifiers joined by colons with a key free of blanks form one plain argument |
| Translator.LastPrimaryRange | src_c/query_processor/sql_translator.c:85-87 | the primary key column is the last one so marked |
| Translator.Refusals | src_c/query_processor/sql_translator.c:24-119 | which queries are refused, and with which error |
| Translator.PlainCommands | src_c/query_processor/sql_translator.c:24-111 | without a table INSERT splits into SET, key and value and SELECT into GET and key; without a key a table is scanned under db:table:*, db being default when none is active |
| Translator.GetTableFinds | src_c/query_processor/sql_translator.c:44-44 | the first table of the name, or none exactly if there is none |
| Walk.WalkIsExact | src_c/backend/server.c:803-839 | a walk over both tables meets every key exactly once with its value, wherever a rehash stands |
| Walk.Collect | src_c/backend/server.c:818-839 | the nested loops over tables, buckets and chains perform that walk |
| Walk.Hgetall | src_c/backend/server.c:795-841 | the HGETALL reply announces and lists every field and value of the hash |
| QueryProcessor.DecodeRow | src_c/query_processor/qp_server.c:192-228 | the decoding loop over field and value pairs, on every reply |
| QueryProcessor.FindColumn | src_c/query_processor/qp_server.c:221-224 | the first column equal to the field but for case |
| QueryProcessor.SameNameMeans | src_c/query_processor/qp_server.c:221-224 | a field is shown in a column whose name has the same letters, in upper or lower case |
| QueryProcessor.ReplyDecodes | src_c/query_processor/qp_server.c:203-227 | an encoded HGETALL reply is decoded pair by pair |
| QueryProcessor.HashShown | src_c/query_processor/qp_server.c:192-228 | a hash whose fields are columns is shown column by column, in whatever order it is listed |
| SqlRow.InsertStoresRow | src_c/query_processor/sql_translator.c:72-108 | the INSERT arrives in one read, is accepted, answers how many columns it gave a value, and stores them under the row's key: with more values than columns the first value is the key and column c gets value c + 1, otherwise column c gets value c and those beyond get none |
| SqlRow.RowComesBack | src_c/query_processor/sql_translator.c:44-108 | what SELECT by its key shows of a row inserted under a fresh key, at any later time and whatever listing the server answers with: cell c is value c + 1 if there were more values than columns, else value c, and null beyond the values |
| SqlRow.KeyIsPrimary | src_c/query_processor/sql_translator.c:76-92 | the row's key is the first of more values than columns, and otherwise the value of the last primary column, or of the first column if none is primary |
| SqlRow.InsertRefused | src_c/query_processor/sql_translator.c:84-91 | an INSERT into a table is refused exactly if its values hold no key |
| SqlRow.KeyValueComesBack | src_c/query_processor/sql_translator.c:44-111 | without a table, the value inserted under a key is what the server answers to the SELECT of that key |
| SqlRow.RowKeysDiffer | src_c/query_processor/sql_translator.c:93-100 | rows of different databases, tables or keys are stored under different keys |
| Rdb.NumbersBack | src_c/backend/rdb.c:20-36 | a number within k bytes is read back, little-endian and, for the sorted-set count, big-endian |
| Rdb.BytesOfNumbers | src_c/backend/rdb.c:20-36 | byte i of a number has the weight 256 to the i, and the count of a sorted set is written the other way round |
| Rdb.RecordHeads | src_c/backend/rdb.c:80-125 | a record starts with 0, 1 or 2 for text, sorted set or hash, then its key behind a four-byte length |
| Rdb.CutSnapshot | src_c/backend/rdb.c:166-176 | a snapshot cut short within a text's record gives exactly the records before it |
| Rdb.StringBack | src_c/backend/rdb.c:28-55 | a string under 4 GB is read back, whatever follows |
| Rdb.ScoreBack | src_c/backend/rdb.c:24-40 | a score is read back from its 8 bytes |
| Rdb.RecordBack | src_c/backend/rdb.c:166-204 | one record, whatever follows, is loaded and nothing else is consumed |
| Rdb.FileBack | src_c/backend/rdb.c:153-211 | loading a written file applies its records in order |
| RdbSave.SaveStrings | src_c/backend/rdb.c:73-87 | the strings not yet expired are written, wherever a rehash stands |
| RdbSave.SaveZsets | src_c/backend/rdb.c:89-108 | likewise the sorted sets, each with its announced count and its whole range |
| RdbSave.SaveHashes | src_c/backend/rdb.c:110-146 | all hashes are written, each with its announced count and all its fields |
| RdbSave.RangeRebuilds | src_c/backend/rdb.c:96-103 | the whole range of a sorted set, added member by member, is the set again |
| RdbSave.RdbSave | src_c/backend/rdb.c:67-151 | loading the saved image gives exactly the unexpired strings and sorted sets and all hashes, with no expiry, even if every dictionary was in the middle of a rehash |
| RdbSave.SnapshotLoses | src_c/backend/rdb.c:79-79 | a key served at the moment of the save is missing after loading if and only if that was its last second |
| RdbSave.LastSecondNotSaved | src_c/backend/rdb.c:79-79 | an input: a text set for ten seconds, read and saved at the tenth, and gone after loading |
| Client.RespParser.ReadUntilCrlf | librediskrazy/client.py:137-147 | the line up to the first line end of the stream, however recv cuts it |
| Client.RespParser.ReadExact | librediskrazy/client.py:149-157 | the next n bytes of the stream, however recv cuts it |
| Client.RespParser.ParseResponse | librediskrazy/client.py:159-205 | value, error and unread rest depend on the stream alone, not on its pieces |
| Client.ReplyBack | librediskrazy/client.py:159-205 | any well-formed, possibly nested reply followed by any bytes is returned, and exactly those bytes are left |
| Client.JunkSkipped | librediskrazy/client.py:161-171 | leading bytes that start no reply are dropped first |
| Client.IntegerRead | librediskrazy/client.py:182-184 | int() reads back a printed number |
| Client.EncodeIsReply | librediskrazy/client.py:193-205 | what the server sends as a command array is an array of bulk strings to the client |

## Left out

- Collision chains are sequences rather than `next` pointers, and the thread pool's task list and the timer list likewise: insertion, unlinking and their order are modelled, pointer aliasing inside a chain is not.
- The pointers to sorted sets and hashes are values of the dictionaries rather than bytes packed into strings; objects dropped from a dictionary are not freed.
- Thread-pool critical sections are single steps; the mutex itself is not modelled, nor is submission after shutdown has started.
- AOF replay covers runs without lifetimes, FLUSHDB and BGREWRITEAOF, and with NUL-free ZADD and ZREM arguments: the log does not store lifetimes, the FLUSHDB record ends its loading, and records printed with percent-s stop at NUL. Hashes are not claimed to be reproduced; `KeyspaceLaws.SetReplayAndHashes` says why.
- INCR, DECR and TTL read their key before, or without, checking the argument count; with no argument the model answers with the argument error.
- The cast of a score's address to a string in `src_c/backend/zset.c:41` has no meaning here; lines 47-49 are the update.
- A score in a reply is the number itself; printing it with 17 digits is not modelled.
- `rdb_load` into a key twice replaces the object and forgets the first one, as the code does; the leak is not modelled.
- Timer callbacks may create timers but not delete them, and return a positive delay or AE_NOMORE; the clock stands still during a pass. Finalizers, file event callbacks, their dispatch order and the BARRIER bit are left out.
- The reply to the query processor is taken to arrive whole; its timing loop is not modelled. Replies to one-column tables take another branch and are left out, as are HSCANALL, DELETE, UPDATE and the schema statements.
- A reply that would make the row decoder read outside the received text, a snapshot that ends inside a count, and a bulk length below -1 in the Python parser are reported as such and not followed further.
- Texts of simple strings and errors in the Python parser stay bytes: UTF-8 decoding is not modelled.
- Doubles appear as the sign and magnitude of their 64-bit pattern, on a little-endian host; negative zero is zero.
- The poll backend's masks are READABLE and WRITABLE; adding an empty mask is outside its contract.
- Fixed-width overflow of counters and times, memory allocation and its failure, sockets, fsync, file-system calls.
- `rewrite_aof`, the AOF buffer, the memory pool, the schema manager, the lexer and parser, KEYS, PING, CONFIG, DEBUG, the CLI and JSON output: easier members, or no law is promised for them.
