# Redis 3.0: verified models of its hard cores

This project models the parts of Redis 3.0 (Windows port) whose correctness is hard to see from
the code, and proves what the code is for.  The models follow the code: the same branches, edge
cases and constants; C integer widths and wrap-around are written out where they matter.  Code
that works by changing arrays and fields is a method or a class here, proved against a
specification function, and the properties of the specification are lemmas.

| files | what they model | main results |
|---|---|---|
| `Lzf*.dfy` | the LZF compressor and decompressor, and their use in RDB files | the output is exactly a greedy reading with its matches; round trip for any contents of the uninitialised hash table; decoding as an if-and-only-if; expansion and compression bounds |
| `Hll*.dfy` | HyperLogLog: packed, run-length and raw registers, PFADD, PFCOUNT, PFMERGE | all representations refine one register vector; the state depends on the element set only; valid caches are right |
| `ClusterRouting.dfy`, `ClusterMigration.dfy` | ASK/MOVED/TRYAGAIN routing and live migration of a slot | redirections lead to an answer in two steps; any interleaving refines a single store; termination; no refusal |
| `ClusterBus.dfy`, `ClusterEpochs.dfy`, `ClusterElection.dfy`, `ClusterWinners.dfy`, `ClusterCollision.dfy`, `ClusterServer.dfy` | epochs, votes and collision resolution as a step relation over nodes and packets, and the handlers as methods | epoch domination, election safety, winners lead in epochs, exactly when vote counts are genuine, termination of collision resolution, over all runs |
| `SlotBitmap.dfy`, `ClusterOwnership.dfy`, `ClusterRoles.dfy`, `ClusterSlots.dfy` | the slot table with its bitmaps, counters and roles, and what packets do to it | coherence through every update; exactly when a slot can lose its owner, or change hands other than to a greater epoch; a slave always knows its master |
| `PqSort.dfy` | the partial quicksort | the window is that of a full sort |
| `MultiLog.dfy`, `Multi.dfy` | WATCH, MULTI, EXEC | compare-and-set, stated about the log of all events |
| `EventPort.dfy` | the Solaris event-port back end | exclusivity of the two tables: exactly when it holds |
| `Rand.dfy`, `RandPeriod.dfy` | the 48-bit generator in 16-bit limbs | refinement of 48-bit arithmetic; period exactly 2^48 |
| `Sha1*.dfy` | SHA-1 in a streaming context | agreement with RFC 3174 for every split of the message |
| `BitCount.dfy`, `BitPos.dfy`, `BitOp.dfy` | BITCOUNT, BITPOS and BITOP a word at a time | agreement with the bit-wise definitions |

`Bytes.dfy` and `Options.dfy` hold shared types.

Six properties that the code or its comments suggest are not true of it:

- **Event ports.**  `aeApiDelEvent` relies on its caller having updated the descriptor's mask
  (ae_evport.c:209-215), but `aeDeleteFileEvent` updates it afterwards (ae.c:156-157).  Deleting an
  event of a descriptor that the kernel holds therefore leaves the old association in place.
  `EventPort.DeleteIff` says exactly when the exclusivity of the tables survives,
  `EventPort.DeleteLeavesAssociation` is the smallest failing case, and
  `EventPort.DeleteUpdatedFirstKeeps` shows that the other order is always right.
- **Elections.**  A vote of an earlier attempt that arrives after a new attempt was scheduled and
  before it has started is counted (cluster.c:1945-1957, 2826-2833), and then two slaves can win one
  epoch: `ClusterElection.LateVoteBreaksSafety` is such a run.  `ClusterElection.GenuineIff` says
  exactly when all counts are genuine: when every attempt starts (cluster.c:2889) with a count of 0.
  Under that condition `ClusterElection.ElectionSafety` holds.
- **Slot ownership.**  A master that turns into a slave gives its slots up (cluster.c:1781-1803), and
  another node may then claim them with a lower epoch: `ClusterOwnership.LeavingLowers` is such a
  run.  `ClusterOwnership.OwnershipRises` says that packets unbind a slot in no other way, and that
  the epoch of a slot that stays bound rises whenever it changes hands.
- **Slot migration.**  Closing the slot gives the target the greatest epoch it knows of.  A source
  whose epoch has grown beyond that (a failover, a manual bump, a collision) takes the slot back, and
  its keys are deleted: `ClusterMigration.TakenBack`.  `ClusterMigration.RunSafeIff` says that a
  migration is safe exactly if this does not happen.
- **Slaves with slots.**  `clusterSetMaster` asserts that the node has no slots (cluster.c:3637), but
  CLUSTER ADDSLOTS is not refused to a slave (cluster.c:3925-3972).  A slave with a slot of its own
  aborts when another node takes over from its master: `ClusterSlots.Table.GivenSlotAborts`.  Without
  such commands a slave knows its master and has no slots (`Settled`), and every packet and every
  change of role keeps it so, without aborting.
- **HyperLogLog counts.**  The largest count is 50, not the 51 of the comment, because bit 63 of the
  hash is forced (hyperloglog.c:461): `HllRegisters.GreatestCount`.

## Model

| member | source | states |
|---|---|---|
| `LzfFormat.CopyBackRepeats` | redis-3.0/src/lzf_d.c:137-147 | an overlapping copy yields exactly the text that repeats with the period of the reference, so a matched stretch of the input is what the decoder writes |
| `LzfFormat.EncodesSnoc` | redis-3.0/src/lzf_c.c:95-101 | tokens for a text, and one more token, are tokens for the text that it extends, and their bytes follow each other |
| `LzfFormat.ReadSound` | redis-3.0/src/lzf_d.c:70-135 | whatever the decoder takes for a token is a valid token whose bytes are the ones consumed, within the input, the room and the text produced so far |
| `LzfFormat.ReadComplete` | redis-3.0/src/lzf_d.c:70-135 | every token that was written is read back as itself, or refused for room or for an offset before the start, in that order |
| `LzfFormat.DecodeSerialise` | redis-3.0/src/lzf_d.c:60-153 | decoding the bytes of any token list gives the text the tokens stand for, or the too-big result exactly if it does not fit |
| `LzfFormat.DecodeParses` | redis-3.0/src/lzf_d.c:60-153 | whatever is decoded without error is the serialisation of some valid token list for that text |
| `LzfFormat.DecodeIff` | redis-3.0/src/lzf_d.c:60-153 | decoding returns a text if and only if the bytes are a well-formed stream for it and it fits |
| `LzfDecompress.CopyRef` | redis-3.0/src/lzf_d.c:137-147 | the byte-wise copy, which reads what it has just written, is the overlapping copy |
| `LzfDecompress.LiteralRun` | redis-3.0/src/lzf_d.c:72-97 | one literal token: the same token, the same error and the same order of tests as the reading of the format |
| `LzfDecompress.BackReference` | redis-3.0/src/lzf_d.c:98-148 | one back reference: the same token, the same error and the same order of tests as the reading of the format |
| `LzfDecompress.Decompress` | redis-3.0/src/lzf_d.c:60-153 | the routine returns the decoded text and its length, or 0 with E2BIG or EINVAL, as the format says, on every non-empty input |
| `LzfCompress.RunCloses` | redis-3.0/src/lzf_c.c:174-175 | patching the reserved header slot, or undoing it for an empty run, leaves the bytes of the tokens written so far |
| `LzfCompress.RollingHash` | redis-3.0/src/lzf_c.c:55-75 | the rolling 32-bit state gives the slot of the three bytes it was fed last, whatever came before them |
| `LzfCompress.MatchLength` | redis-3.0/src/lzf_c.c:170-210 | the unrolled and the general comparison together find the longest match up to the limit that the format, the end of the input and the unrolled tests set |
| `LzfCompress.EmitMatch` | redis-3.0/src/lzf_c.c:169-231 | the match becomes a back reference of the output; the room test fails exactly if what has been written and four bytes do not fit |
| `LzfCompress.PutLiteral` | redis-3.0/src/lzf_c.c:263-274 | one more literal byte is written, closing and reopening a run of 32 |
| `LzfCompress.Scan` | redis-3.0/src/lzf_c.c:143-275 | for any initial hash table: the main loop makes the greedy choices, match or literal byte, up to the last two bytes, and gives up exactly if some test on the room fails |
| `LzfCompress.Compress` | redis-3.0/src/lzf_c.c:103-295 | for any initial hash table: the output is exactly the stream of the greedy reading, or nothing if some test on the room fails; it is a well-formed stream for the input, at most out_len long, and exceeds the input by at most one byte in 32 (rounded up); it is not refused if it fits with four bytes to spare, nor with out_len at least in_len + in_len/32 + 4; one byte repeated n >= 16 times always fits in n - 4 bytes, and takes at most 3 (n/264) + 9 |
| `LzfMatches.MatchTaken` | redis-3.0/src/lzf_c.c:146-210 | wherever a choice is made: if the place entered last under the hash of the next three bytes is not the first, is at most 8192 back and begins with the same three bytes, and more than four bytes are left, the longest match with that place is taken |
| `LzfMatches.NoOtherMatch` | redis-3.0/src/lzf_c.c:146-210 | a match that is taken is the longest one with the place that the table holds |
| `LzfMatches.MatchWritten` | redis-3.0/src/lzf_c.c:215-231 | a match that is taken is a back reference of the final stream, after the tokens for the text before it |
| `LzfMatches.RunIsMatched` | redis-3.0/src/lzf_c.c:146-210 | inside a run of one byte a match is always taken, whatever the table held |
| `LzfMatches.StreamFits` | redis-3.0/src/lzf_c.c:177-178 | a stream that fits with four bytes to spare is never refused |
| `LzfMatches.RepeatedShrinks` | redis-3.0/src/lzf_c.c:103-295 | a text of one byte repeated shrinks to three bytes for every 264 and at most nine more |
| `LzfRoundTrip.RoundTrip` | redis-3.0/src/lzf_c.c:103-295 | compressing over any table contents gives the greedy stream, and decompressing it with enough room gives the input back, byte for byte |
| `LzfRoundTrip.SaveLzf` | redis-3.0/src/lzf_c.c:103-295 | as `rdbSaveLzfStringObject` uses the compressor (rdb.c, lines 214-249): what is written saves at least four bytes and decodes to the string; it is the result of the compressor for some contents of the table; a string of one byte repeated sixteen times or more is never stored verbatim |
| `LzfRoundTrip.LoadLzf` | redis-3.0/src/lzf_d.c:60-153 | as `rdbLoadLzfStringObject` uses the decompressor (rdb.c, lines 251-268): loading fails exactly when the stream is corrupt or too long for the recorded length |
| `LzfRoundTrip.SaveLoad` | redis-3.0/src/lzf_d.c:60-153 | a string saved in compressed form is loaded unchanged |
| `HllRegisters.PatternMeans` | redis-3.0/src/hyperloglog.c:459-467 | the count is the distance to the first set bit above the index bits, bit 63 counting as set |
| `HllRegisters.GreatestCount` | redis-3.0/src/hyperloglog.c:459-467 | the greatest count is 50, attained exactly by the hashes whose bits 14 to 62 are clear |
| `HllRegisters.PatLen` | redis-3.0/src/hyperloglog.c:444-470 | the index is the number that the low 14 bits of the hash spell, bit by bit; the count is the distance to the first set bit above them, between 1 and 50 |
| `HllRegisters.IndexSpells` | redis-3.0/src/hyperloglog.c:460-460 | the register of a hash is the number spelt by its low 14 bits, and no other |
| `HllRegisters.IndexSame` | redis-3.0/src/hyperloglog.c:460-460 | two hashes go to the same register exactly if they agree in their low 14 bits |
| `HllRegisters.IndexOnto` | redis-3.0/src/hyperloglog.c:460-460 | every one of the 16384 registers is reached |
| `HllRegisters.FeedIsMax` | redis-3.0/src/hyperloglog.c:1047-1054 | after any sequence of adds each register is the greatest count over the elements that hash to it |
| `HllRegisters.FeedFed` | redis-3.0/src/hyperloglog.c:1047-1054 | the same by the bits of the hashes: a register is raised to the greatest count among the elements whose low 14 bits spell its number, and otherwise keeps its value |
| `HllRegisters.PEHalves` | redis-3.0/src/hyperloglog.c:991-998 | the table of powers starts with 1 and halves from entry to entry |
| `HllRegisters.FeedSet` | redis-3.0/src/hyperloglog.c:1047-1054 | order and repetition of adds do not matter |
| `HllRegisters.JoinIsUnion` | redis-3.0/src/hyperloglog.c:1064-1106 | merging two sketches gives the sketch of all their elements |
| `HllRegisters.JoinLaws` | redis-3.0/src/hyperloglog.c:1064-1106 | merging is commutative, associative and idempotent |
| `HllDense.ReadOverWrite` | redis-3.0/src/hyperloglog.c:337-359 | the packed 6-bit access macros: a written register reads as written, and every other register is unchanged |
| `HllSparse.DecodeConcat` | redis-3.0/src/hyperloglog.c:361-386 | opcodes stand for runs of registers independently of their neighbours |
| `HllSparse.Substitute` | redis-3.0/src/hyperloglog.c:822-835 | replacing whole opcodes by others replaces exactly their registers |
| `HllSparseAdd.Locate` | redis-3.0/src/hyperloglog.c:668-697 | the search finds the opcode that covers the register, its first register and the opcode before it; the invalid result does not occur |
| `HllSparseAdd.SplitOp` | redis-3.0/src/hyperloglog.c:739-820 | in every split case the new opcodes, at most five bytes, stand for the old run with one register changed |
| `HllSparseAdd.MergeScan` | redis-3.0/src/hyperloglog.c:843-874 | the string changes exactly if one of the five opcodes from the start of the scan can be merged with its successor, and then it gets shorter; no register changes |
| `HllObject.Unpack` | redis-3.0/src/hyperloglog.c:571-625 | conversion to the dense form keeps all registers |
| `HllObject.RegisterRaised` | redis-3.0/src/hyperloglog.c:822-835 | splicing in the split opcode changes that register alone |
| `HllObject.Hll.constructor` | redis-3.0/src/hyperloglog.c:1112-1142 | a new object has 16384 zero registers and a valid cached count of 0 |
| `HllObject.Hll.ToDense` | redis-3.0/src/hyperloglog.c:571-625 | promotion changes no register |
| `HllObject.Hll.DenseAdd` | redis-3.0/src/hyperloglog.c:485-499 | the register becomes the maximum of old value and count; the result is 1 exactly if it rose |
| `HllObject.Hll.Promote` | redis-3.0/src/hyperloglog.c:881-894 | promotion followed by a dense add changes the register: the assertion of line 893 holds |
| `HllObject.Hll.SparseAdd` | redis-3.0/src/hyperloglog.c:643-895 | on any opcode string that covers the 16384 registers the object afterwards, sparse or promoted, has the old registers with that one raised to the maximum; the result is 1 exactly if it rose and never -1; a string that grew stays within the configured size; a string that is changed has the opcode that covers the register replaced, and has been scanned for merges from the opcode before; its cached count is marked invalid |
| `HllObject.Hll.WriteAll` | redis-3.0/src/hyperloglog.c:1356-1361 | all registers are overwritten by the merged ones |
| `HllObject.Hll.Add` | redis-3.0/src/hyperloglog.c:1047-1054 | either representation is updated to the register-wise maximum |
| `HllCount.DenseSum` | redis-3.0/src/hyperloglog.c:505-561 | the sum unrolled over sixteen registers is the sum, and the zero count, over all registers |
| `HllCount.SparseSum` | redis-3.0/src/hyperloglog.c:901-933 | the run-length sum is the sum, and the zero count, over the decoded registers; the string is never found invalid |
| `HllCount.RawSum` | redis-3.0/src/hyperloglog.c:943-970 | the sum that skips zero words is the sum, and the zero count, over all registers |
| `HllCommands.Merge` | redis-3.0/src/hyperloglog.c:1064-1106 | merging from either representation takes the register-wise maximum |
| `HllCommands.AddAll` | redis-3.0/src/hyperloglog.c:1196-1207 | the elements are added in order, and the update flag says whether any register changed |
| `HllCommands.Keyspace.PfAdd` | redis-3.0/src/hyperloglog.c:1178-1216 | PFADD raises exactly the registers that the low 14 bits of the hashes spell, to their greatest counts, and touches no other key; the reply is 1 exactly if a sketch was created or changed; valid cached counts stay right |
| `HllCommands.Keyspace.MergeKeys` | redis-3.0/src/hyperloglog.c:1228-1249 | the loop over keys joins the sketches at all of them |
| `HllCommands.Keyspace.PfCount` | redis-3.0/src/hyperloglog.c:1219-1308 | PFCOUNT returns the estimate of the union, cached or computed, and changes no register; a single key is left with the reply as its cached count, which is right |
| `HllCommands.Keyspace.PfMerge` | redis-3.0/src/hyperloglog.c:1311-1370 | PFMERGE stores the join of destination and sources, densely, marks its cached count invalid, and touches no other key |
| `HllHistory.Execute` | redis-3.0/src/hyperloglog.c:1178-1370 | executing any list of commands leaves the registers, and returns the counts, of the run that the following rows are about |
| `HllHistory.RunAgrees` | redis-3.0/src/hyperloglog.c:1178-1370 | after any run of PFADD, PFMERGE and PFCOUNT the registers at each key are the sketch of the set of elements that reached it |
| `HllHistory.OnlyElementsMatter` | redis-3.0/src/hyperloglog.c:1178-1370 | runs that put the same elements at the keys end with the same registers and counts |
| `HllHistory.CountOfUnion` | redis-3.0/src/hyperloglog.c:1219-1308 | the count over several keys is that of one sketch fed with the union of their elements |
| `ClusterRouting.GetNodeByQuery` | redis-3.0/src/cluster.c:4873-5025 | the scan over all keys of a command or transaction decides as one test of the whole key list does; a MOVED names the owner of the slot, which is not this node; an ASK names the node that the slot is migrating to, and some key is missing here; a command is served only where the slot is owned with no key missing, imported by a client that asks, or readable at a slave of the owner |
| `ClusterRouting.MovedLeadsHome` | redis-3.0/src/cluster.c:5019-5024 | over nodes that agree on the owner: the node that a MOVED names serves the same keys, or sends the client on with an ASK for keys it does not have |
| `ClusterRouting.AskLeadsOn` | redis-3.0/src/cluster.c:4996-5010 | the node that an ASK names serves the same keys to a client that asks, or answers TRYAGAIN exactly if there are different keys and one is missing |
| `ClusterRouting.TwoHops` | redis-3.0/src/cluster.c:4873-5025 | over nodes that agree on the owner of the slot, and of which the one that it is migrating to imports it: from any node, a client needs to follow at most two redirections |
| `ClusterMigration.StepSafe` | redis-3.0/src/redis-trib.rb:806-845 | a step of the slot mover, of a client, of expiry, of an epoch that grows, or of the bus, on which both nodes claim the slot with old or new epochs, keeps the two key sets disjoint, acts on their union like on one store, and adds no keys to the source once migration has begun, if and only if it does not take the slot back from the target |
| `ClusterMigration.SourceClaimsSafe` | redis-3.0/src/cluster.c:1488-1525 | a claim of the source does not touch the target, unless the target has closed the slot and its epoch is older than that of the claim |
| `ClusterMigration.TakenBack` | redis-3.0/src/cluster.c:1488-1525 | in that case the slot goes back to the source and all its keys, which are at the target, are deleted |
| `ClusterMigration.SteadyUndisturbed` | redis-3.0/src/cluster.c:4019-4040 | the slot is never taken back if the epoch of the source, which the target has heard of, does not grow during the migration |
| `ClusterMigration.NeverRefused` | redis-3.0/src/cluster.c:3969-4060 | no command of the mover is refused: neither SETSLOT at the start, nor MIGRATE, nor the closing SETSLOT NODE for remaining keys |
| `ClusterMigration.RunInv` | redis-3.0/src/redis-trib.rb:806-845 | the protocol invariant holds in every state of every run in which the slot is not taken back |
| `ClusterMigration.RunSafeIff` | redis-3.0/src/redis-trib.rb:806-845 | all steps of a run are safe if and only if the slot is never taken back |
| `ClusterMigration.MigrationRefinesStore` | redis-3.0/src/redis-trib.rb:806-845 | over every interleaving in which the slot is not taken back: no key on both nodes, every executed command replies and acts as on a single store, the number of batches is bounded by the keys present at the start, and at the end the target owns the slot and all its keys |
| `ClusterEpochs.StepDominates` | redis-3.0/src/cluster.c:1617-1630 | every event keeps currentEpoch above all recorded configEpochs, in nodes and in packets, and lowers no currentEpoch |
| `ClusterEpochs.RunDominates` | redis-3.0/src/cluster.c:1970-1991 | the same in every state of every run |
| `ClusterEpochs.CurrentEpochMonotone` | redis-3.0/src/cluster.c:1617-1630 | a currentEpoch never decreases over a run |
| `ClusterEpochs.BumpWins` | redis-3.0/src/cluster.c:1001-1018 | a unilateral bump makes the own configEpoch greater than every other known one, and is refused exactly when the own one is the greatest epoch already and not zero |
| `ClusterEpochs.EpochIsSet` | redis-3.0/src/cluster.c:4303-4338 | CLUSTER SET-CONFIG-EPOCH sets the epoch of a node that has none and knows nobody else, exactly then, and keeps domination |
| `ClusterElection.StepElection` | redis-3.0/src/cluster.c:2521-2621 | a step that starts no attempt with a vote counted keeps the voting invariant: a count is a number of distinct masters that voted for the node in the epoch of its attempt, and a vote in flight has been cast and not counted |
| `ClusterElection.FalseVote` | redis-3.0/src/cluster.c:2888-2900 | if an attempt starts with a vote counted, that is a vote that nobody has cast in its epoch |
| `ClusterElection.StepGenuineIff` | redis-3.0/src/cluster.c:2888-2900 | from a state of the invariant, all counts are genuine after a step if and only if the step does not start an attempt with a vote counted |
| `ClusterElection.GenuineIff` | redis-3.0/src/cluster.c:2826-2900 | over a whole run: every count is a number of masters that voted for the node in the epoch of its attempt, in every state, if and only if every attempt starts with no vote counted |
| `ClusterElection.ElectionSafety` | redis-3.0/src/cluster.c:2826-2918 | no two slaves win the same epoch, at whatever times, if every attempt starts with no vote counted |
| `ClusterElection.WonKept` | redis-3.0/src/cluster.c:2902-2918 | wins are recorded for good, so the previous row covers wins at different times |
| `ClusterWinners.WinnerLeads` | redis-3.0/src/cluster.c:2902-2918 | over any run: a slave that wins is a master, and its own configEpoch, which its packets carry, is at least the epoch of its attempt from then on; that is greater than every configEpoch it had on record when the attempt started |
| `ClusterWinners.HeaderCarries` | redis-3.0/src/cluster.c:2180-2202 | the header of a slave carries the configEpoch of its master, and that of a master its own |
| `ClusterElection.VoteEpochsIncrease` | redis-3.0/src/cluster.c:2535-2621 | over any run, orderly or not, of two votes granted by the same master the later one has the greater epoch |
| `ClusterElection.LateVoteBreaksSafety` | redis-3.0/src/cluster.c:1945-1957 | a run of three masters and two slaves of a failed one in which the votes of an earlier attempt arrive between scheduling and starting the next one, and both slaves win the same epoch |
| `ClusterCollision.StepInv` | redis-3.0/src/cluster.c:1066-1081 | every delivery, fresh or stale, keeps the invariant that a master leaves an epoch only if a greater name has held it |
| `ClusterCollision.MovesBound` | redis-3.0/src/cluster.c:1066-1081 | a master moves at most once for every master with a greater name |
| `ClusterCollision.CollisionsTerminate` | redis-3.0/src/cluster.c:1020-1081 | over any run, in any delivery order, N masters move at most N(N-1)/2 times altogether, the greatest name never |
| `ClusterCollision.FreshPacket` | redis-3.0/src/cluster.c:1889-1896 | a fresh packet moves its receiver exactly if the epochs are equal and the sender has the greater name |
| `ClusterCollision.RestIffDistinct` | redis-3.0/src/cluster.c:1066-1081 | a reachable state is at rest exactly when all configEpochs are distinct |
| `SlotBitmap.BitOver` | redis-3.0/src/cluster.c:3370-3388 | the bitmap macros: a set or cleared bit reads as such, and no other bit changes |
| `ClusterSlots.Table.AddSlot` | redis-3.0/src/cluster.c:3391-3420 | an unassigned slot is bound, an assigned one refused; table, bitmaps and counters agree |
| `ClusterSlots.Table.DelSlot` | redis-3.0/src/cluster.c:3399-3432 | the slot is unbound; the bit was set, as line 3429 asserts; table, bitmaps and counters agree |
| `ClusterSlots.Table.DelNodeSlots` | redis-3.0/src/cluster.c:3436-3444 | exactly the slots of the node become unassigned |
| `ClusterSlots.Table.ReplaceYourMaster` | redis-3.0/src/cluster.c:2719-2735 | a slave takes over exactly the slots of its master, becomes a master without a master pointer and leaves the list of its old master; no other role changes |
| `ClusterSlots.Table.DelNode` | redis-3.0/src/cluster.c:839-921 | a node that is deleted disappears from the owner, importing and migrating tables and from the slave list of its master; back pointers to it are cleared exactly if it is a master and only those of the slaves in its list |
| `ClusterSlots.Table.SetMaster` | redis-3.0/src/cluster.c:3635-3651 | we are a slave of the node, in its list, and no longer in the list of the old master; in a settled table in no other list; no other role changes; open slots are closed exactly if we were a master; the slot table stays coherent |
| `ClusterSlots.Table.Claim` | redis-3.0/src/cluster.c:1488-1525 | each claimed slot is decided on its own; the slots lost with keys in them, and the loss of a slot of our master, are noticed exactly |
| `ClusterSlots.Table.UpdateSlotsConfigWith` | redis-3.0/src/cluster.c:1465-1553 | claims are applied slot by slot; we follow the sender exactly if they take the last slot of our master (or ours); the update aborts exactly if we have no master to watch and an unassigned slot is taken, or if slots of our own are left when we have to follow, both said of the state before the call; neither happens in a settled table; the keys of exactly the slots we lost are deleted if we do not follow; if we follow, our master pointer is the sender and we are in its list |
| `ClusterSlots.Table.AddSlotsCommand` | redis-3.0/src/cluster.c:3925-3972 | a free slot is bound to this node, master or slave, and is no longer imported |
| `ClusterSlots.Table.GivenSlotAborts` | redis-3.0/src/cluster.c:1534-1538 | a slave that was given a slot by ADDSLOTS aborts on the assertion of line 3637 when another node takes all the slots of its master |
| `ClusterSlots.Table.ReceivePing` | redis-3.0/src/cluster.c:1781-1843 | epoch, role and claims of a PING are those of the model of ownership; roles, pointers and lists of slaves change as the announced role says, and if we follow the sender it is our master; a table in which a slave knows its master stays so, and the update never aborts; keys go only with slots that we lost |
| `ClusterSlots.Table.ReceiveUpdate` | redis-3.0/src/cluster.c:1970-1991 | the same for an UPDATE, which is ignored unless it is newer, and which turns the node into a master |
| `ClusterRoles.UnlinkedFits` | redis-3.0/src/cluster.c:4165-4170 | deleting a node other than this one and its master, as CLUSTER FORGET does, leaves a slave with a known master, and in no other node's list of slaves |
| `ClusterRoles.FollowingFits` | redis-3.0/src/cluster.c:3635-3651 | so does following another master |
| `ClusterRoles.PlacedAlone` | redis-3.0/src/cluster.c:3635-3651 | a node that fits and gets another master is in the list of that master and in no other |
| `ClusterRoles.TurnedFits` | redis-3.0/src/cluster.c:1781-1817 | so does any role that another node announces |
| `ClusterRoles.TurnedAnnounces` | redis-3.0/src/cluster.c:1781-1817 | flag, pointer and list of every node after an announcement: a promoted node has left its list, a new slave is in the list of its master if that is known, and a former master has no slaves |
| `ClusterRoles.UnlinkedGone` | redis-3.0/src/cluster.c:839-921 | the slaves in the list of a deleted master lose their pointers, a deleted slave leaves the list of its master, and nothing else about roles changes |
| `ClusterOwnership.ClaimsOrdered` | redis-3.0/src/cluster.c:1488-1525 | an unclaimed slot is unchanged; a claimed one ends with the sender, or is being imported, or has an owner with an epoch not older than the claim; a slot that changes owner is claimed, not being imported, goes to the sender, and from an owner to a strictly greater epoch |
| `ClusterOwnership.HeardRises` | redis-3.0/src/cluster.c:1781-1843 | one packet unbinds a bound slot if and only if its owner announces that it has turned into a slave; otherwise the epoch of the slot does not fall, and rises strictly if the slot changes hands |
| `ClusterOwnership.OwnershipRises` | redis-3.0/src/cluster.c:1488-1525 | over any run of PING and UPDATE packets, however old and in whatever order: a bound slot stays bound if and only if none of its owners announces that it has turned into a slave; as long as it does, the epoch of its owner never falls, and rises strictly if the slot changes hands |
| `ClusterOwnership.LeavingLowers` | redis-3.0/src/cluster.c:1781-1803 | a run in which the owner of a slot turns into a slave and the slot ends with an owner of a lower epoch |
| `ClusterServer.Server.GetMaxEpoch` | redis-3.0/src/cluster.c:957-970 | the result is the greatest of currentEpoch and all configEpochs |
| `ClusterServer.Server.BumpConfigEpoch` | redis-3.0/src/cluster.c:1001-1018 | the fields change as the bump of the distributed model does, or not at all |
| `ClusterServer.Server.ReceiveHeader` | redis-3.0/src/cluster.c:1617-1630 | the epochs of a packet are recorded as in the distributed model |
| `ClusterServer.Server.ReceivePing` | redis-3.0/src/cluster.c:1889-1896 | a colliding packet is resolved as in the distributed model |
| `ClusterServer.Server.ReceiveUpdate` | redis-3.0/src/cluster.c:1970-1985 | an UPDATE is recorded as in the distributed model; a newer configuration turns the node into a master, and no other node changes but the sender in its epoch |
| `ClusterServer.Server.SlotsAllow` | redis-3.0/src/cluster.c:2596-2614 | the loop refuses exactly if a claimed slot has an owner with a greater epoch |
| `ClusterServer.Server.SendFailoverAuthIfNeeded` | redis-3.0/src/cluster.c:2521-2621 | a vote is granted exactly under the conditions of the distributed model, among them that the requesting node is a slave of a failed master, or forced, that this master was not voted on recently, and that no claimed slot has a newer owner; the epoch and the time of the vote are recorded, and nothing else |
| `ClusterServer.Server.ReceiveAck` | redis-3.0/src/cluster.c:1945-1957 | a vote is counted as in the distributed model |
| `ClusterServer.Server.HandleSlaveFailover` | redis-3.0/src/cluster.c:2785-2922 | nothing happens unless this is a slave of a failed master with slots (or the failover is manual) and its data is fresh enough; then scheduling, starting and winning an election are the steps of the distributed model; the winner is a master without a master pointer, its configEpoch is not less than the epoch of the attempt, and no other node changes |
| `PqSort.Med3IsMedian` | redis-3.0/src/pqsort.c:94-102 | the element chosen has one of the other two on either side |
| `PqSort.ChoosePivot` | redis-3.0/src/pqsort.c:120-130 | the pivot is the middle one of seven elements, the median of the first, the middle and the last up to forty, and the median of three medians of three beyond |
| `PqSort.Sink` | redis-3.0/src/pqsort.c:115-117 | the element sinks to its place among the sorted ones before it |
| `PqSort.InsertionSort` | redis-3.0/src/pqsort.c:113-119 | fewer than seven elements are sorted, and permuted |
| `PqSort.VecSwap` | redis-3.0/src/pqsort.c:92-92 | two blocks are exchanged and nothing else |
| `PqSort.Scan` | redis-3.0/src/pqsort.c:133-156 | all elements but the pivot are classified: ties at both ends, smaller ones, greater ones; the range is permuted |
| `PqSort.BlocksTurned` | redis-3.0/src/pqsort.c:158-162 | exchanging the shorter of two neighbouring blocks with the far end of the other one exchanges their places |
| `PqSort.Partition` | redis-3.0/src/pqsort.c:120-162 | smaller elements, ties and greater elements, in that order; the range is permuted |
| `PqSort.MissedByAddress` | redis-3.0/src/pqsort.c:163-166 | the test on byte addresses is the test on element numbers, for every element size |
| `PqSort.SortRange` | redis-3.0/src/pqsort.c:104-183 | recursion and goto loop, with parts skipped by the test on byte addresses: any two elements with a window position between them are in order, and the range is permuted |
| `PqSort.Pqsort` | redis-3.0/src/pqsort.c:185-191 | for any total preorder: the array is permuted, the window is sorted, nothing before it is greater and nothing after it is less |
| `PqSort.WindowIsThatOfFullSort` | redis-3.0/src/pqsort.c:185-191 | the window holds, place by place, what sorting everything would put there |
| `MultiLog.ApplyMeans` | redis-3.0/src/multi.c:284-305 | an event changes that key alone, or removes the keys of one database or of all, and no others |
| `MultiLog.StaleSnoc` | redis-3.0/src/multi.c:261-278 | a client becomes stale exactly when a key it watches is touched, and stops being so exactly when its watches end |
| `MultiLog.FreshKeepsAll` | redis-3.0/src/multi.c:126-137 | if no watched key was touched, every watched key has the value it had when the watch was placed |
| `Multi.WatchCoheres` | redis-3.0/src/multi.c:215-228 | adding to the client list and to the index keeps them exact inverses |
| `Multi.UnwatchCoheres` | redis-3.0/src/multi.c:239-256 | taking one key off keeps them exact inverses, without empty entries; the key is found in the index, as line 247 asserts |
| `Multi.AllFollow` | redis-3.0/src/multi.c:114-305 | flags, queues and lists that follow an event say what the log says about every client |
| `Multi.Server.WatchForKey` | redis-3.0/src/multi.c:202-229 | the key of the selected database goes on the list of the client, once however often it is asked for, and no other client changes |
| `Multi.Server.UnwatchAllKeys` | redis-3.0/src/multi.c:233-257 | no watch of the client is left, in its list or in the index |
| `Multi.Server.TouchWatchedKey` | redis-3.0/src/multi.c:261-278 | exactly the clients that watch the key become dirty |
| `Multi.Server.TouchWatchedKeysOnFlush` | redis-3.0/src/multi.c:284-305 | exactly the clients that watch an existing key of the flushed databases become dirty |
| `Multi.Server.WatchCommand` | redis-3.0/src/multi.c:307-317 | WATCH is refused exactly inside a transaction; otherwise exactly those keys of the selected database are watched too |
| `Multi.Server.UnwatchCommand` | redis-3.0/src/multi.c:319-323 | UNWATCH ends all watches and the staleness with them |
| `Multi.Server.MultiCommand` | redis-3.0/src/multi.c:86-93 | MULTI is refused exactly inside a transaction |
| `Multi.Server.FlagTransaction` | redis-3.0/src/multi.c:81-84 | a refused command is remembered inside a transaction only |
| `Multi.Server.QueueMultiCommand` | redis-3.0/src/multi.c:56-70 | the command joins the end of the queue |
| `Multi.Server.DiscardTransaction` | redis-3.0/src/multi.c:72-77 | flags, queue and watches are as if the transaction had never been |
| `Multi.Server.DiscardCommand` | redis-3.0/src/multi.c:95-102 | DISCARD is refused exactly outside a transaction |
| `Multi.Server.FreeClient` | redis-3.0/src/multi.c:233-257 | as `freeClient` uses it (networking.c, line 726): a client that leaves is in no list |
| `Multi.Server.ChangeKey` | redis-3.0/src/multi.c:261-278 | as `signalModifiedKey` uses it (db.c, line 224): the key alone gets its new value, and its watchers become dirty |
| `Multi.Server.Flush` | redis-3.0/src/multi.c:284-305 | as FLUSHDB and FLUSHALL use it (db.c, lines 235-246): watchers are marked before the data goes, and the keys of other databases stay |
| `Multi.Server.RunQueue` | redis-3.0/src/multi.c:145-165 | the queued commands run in order with nothing in between |
| `Multi.Server.Call` | redis-3.0/src/multi.c:145-165 | one queued command: a data command leaves its keys of the selected database with the last value it gives them, a flush removes the keys of that database or of all, SELECT changes the database of this client only |
| `Multi.Server.ExecCommand` | redis-3.0/src/multi.c:114-172 | EXEC runs exactly the queue if and only if the client is in a transaction, no command was refused and no watched key was touched since it was watched; otherwise it replies with the error that applies and changes no data; if it runs, all watched keys have the values they had when they were watched |
| `Multi.Server.ProcessCommand` | redis-3.0/src/multi.c:56-84 | as `processCommand` uses them (redis.c, lines 2243-2426): a refused command flags the transaction, an accepted one is queued inside it and executed outside |
| `Multi.Server.Answer` | redis-3.0/src/multi.c:35-323 | each request has the reply, and adds to the log the events, that follow from what has happened before it |
| `Multi.Server.Serve` | redis-3.0/src/multi.c:35-323 | over any run of any number of clients the log and all replies, those of EXEC among them, are the ones that the requests determine, and the index stays coherent |
| `EventPort.AddIff` | redis-3.0/src/ae_evport.c:152-181 | adding keeps kernel table and pending table exclusive exactly unless no event is added to an unregistered descriptor |
| `EventPort.DeleteUpdatedFirstKeeps` | redis-3.0/src/ae_evport.c:183-241 | if the caller has updated the mask first, as lines 209-215 rely on, deleting always keeps them exclusive, and only an existing association is dissociated |
| `EventPort.DeleteIff` | redis-3.0/src/ae_evport.c:183-241 | with the mask updated afterwards, as the event loop does it (ae.c, lines 156-157), they stay exclusive exactly if the descriptor is pending or loses no event; otherwise the kernel keeps the old association |
| `EventPort.DeleteLeavesAssociation` | redis-3.0/src/ae_evport.c:209-241 | the smallest failing instance: a descriptor whose last event is deleted stays associated |
| `EventPort.PollKeeps` | redis-3.0/src/ae_evport.c:243-316 | whatever the kernel reports, polling keeps them exclusive |
| `EventPort.RunIff` | redis-3.0/src/ae_evport.c:50-64 | over any run the tables are exclusive after every step if and only if every step met its guard |
| `EventPort.Port.LookupPending` | redis-3.0/src/ae_evport.c:109-118 | the search finds the first entry of the descriptor, or none |
| `EventPort.Port.CreateFileEvent` | redis-3.0/src/ae_evport.c:152-181 | called by the event loop (ae.c, lines 125-147), arrays and kernel table change as the add step does; exactly the events of the mask are added, to that descriptor |
| `EventPort.Port.DelEvent` | redis-3.0/src/ae_evport.c:183-241 | arrays and kernel table change as the delete step of the back end does |
| `EventPort.Port.DeleteFileEvent` | redis-3.0/src/ae_evport.c:183-241 | called by the event loop (ae.c, lines 149-166), arrays and kernel table change as its delete step does; exactly the events of the mask are removed, from that descriptor |
| `EventPort.Port.Reassociate` | redis-3.0/src/ae_evport.c:255-270 | all pending descriptors go back to the kernel with their masks |
| `EventPort.Port.ApiPoll` | redis-3.0/src/ae_evport.c:243-316 | arrays and kernel table change as the poll step does; the event loop gets each descriptor with the events the kernel reports, while the table keeps the mask the kernel held |
| `Rand.MulExact` | redis-3.0/src/rand.c:51-54 | the two limbs of a product are exact although it passes through a signed 32-bit number |
| `Rand.NextExact` | redis-3.0/src/rand.c:83-96 | limbs and carries add up to the product modulo 2^48 |
| `Rand.Generator.Next` | redis-3.0/src/rand.c:83-96 | limbs stay below 2^16 and the state becomes (0x5DEECE66D x + 0xB) mod 2^48 |
| `Rand.Generator.Lrand48` | redis-3.0/src/rand.c:74-77 | the result is the new state shifted right by 17, in [0, 2^31) |
| `Rand.Generator.Srand48` | redis-3.0/src/rand.c:79-81 | the 32 bits of the seed, of either sign, become the upper limbs |
| `Rand.Generator.Draw` | redis-3.0/src/rand.c:74-96 | the n-th number after seeding is the n-th state of the 48-bit generator shifted right by 17 |
| `RandPeriod.SumValuation` | redis-3.0/src/rand.c:83-96 | 1 + A + ... + A^(n-1) is divisible by exactly the powers of two that divide n |
| `RandPeriod.Period` | redis-3.0/src/rand.c:83-96 | from every state, the state comes back after n steps exactly if 2^48 divides n |
| `RandPeriod.StatesDistinct` | redis-3.0/src/rand.c:83-96 | two states after a seed are equal exactly if a multiple of 2^48 steps apart |
| `Sha1Facts.ConstantsAreRoots` | redis-3.0/src/sha1.c:53-58 | the round constants are the square roots of 2, 3, 5 and 10 with thirty binary places |
| `Sha1Facts.InitialCounts` | redis-3.0/src/sha1.c:124-133 | the bytes of the first four initial words count up and down in steps of two digits, those of the fifth are f0, e1, d2, c3 |
| `Sha1Facts.Chooses` | redis-3.0/src/sha1.c:53-58 | rounds 0 to 19 take each bit from the second or third word as the first one says |
| `Sha1Facts.Votes` | redis-3.0/src/sha1.c:53-58 | rounds 40 to 59 take the majority of each bit |
| `Sha1Facts.Parity` | redis-3.0/src/sha1.c:53-58 | the other rounds take the parity of each bit |
| `Sha1Facts.PaddingFills` | redis-3.0/src/sha1.c:162-200 | the padded message is the message, 80, zeros and its length in bits to the base of 256, in the least number of whole blocks |
| `Sha1Transform.TurnIsBigEndian` | redis-3.0/src/sha1.c:38-40 | the byte swap of a little-endian load is the big-endian word |
| `Sha1Transform.MixIsF` | redis-3.0/src/sha1.c:53-58 | the shortened logical functions are those of section 5 of RFC 3174 |
| `Sha1Transform.CircularIsW` | redis-3.0/src/sha1.c:50-51 | a word of the 16-word circular schedule is the word of the 80-word schedule |
| `Sha1Transform.Round` | redis-3.0/src/sha1.c:53-58 | a round with the variables in changing roles is a round of section 6.1 of RFC 3174 |
| `Sha1Transform.Transform` | redis-3.0/src/sha1.c:63-119 | one block is compressed as in section 6.1 of RFC 3174 |
| `Sha1.CountAdd` | redis-3.0/src/sha1.c:142-145 | the two 32-bit halves with their carry count bits modulo 2^64 |
| `Sha1.Context.constructor` | redis-3.0/src/sha1.c:124-133 | a context that has absorbed nothing |
| `Sha1.Context.Update` | redis-3.0/src/sha1.c:138-157 | whatever was absorbed before, the data is appended: whole blocks hashed, the rest buffered, the bits counted |
| `Sha1.Context.Finish` | redis-3.0/src/sha1.c:162-200 | the digest is that of section 4 and 6.1 of RFC 3174 for every message under 2^61 bytes (and for longer ones with the length modulo 2^64), and nothing of the message is left |
| `Sha1.HashPieces` | redis-3.0/src/sha1.c:124-200 | however a message is cut into pieces, the digest is that of the message |
| `Swar.LanesCount` | redis-3.0/src/bitops.c:87-107 | the masked sums leave in each byte of a word its number of set bits |
| `BitCount.Gather` | redis-3.0/src/bitops.c:101-107 | the multiplication gathers the four lanes of seven words without overflow |
| `BitCount.Count28` | redis-3.0/src/bitops.c:75-108 | 28 bytes as seven words: the number of their set bits |
| `BitCount.Popcount` | redis-3.0/src/bitops.c:61-113 | the number of set bits of any string at any address |
| `BitWords.WordBit` | redis-3.0/src/bitops.c:182-194 | the shifted mask meets the word exactly where the bytes, from the left, have a set bit |
| `BitPos.Skip` | redis-3.0/src/bitops.c:138-156 | everything skipped consists of the other bit, and the next word does not |
| `BitPos.Gather` | redis-3.0/src/bitops.c:158-173 | the word holds the next bytes, padded with zeros |
| `BitPos.SomeBit` | redis-3.0/src/bitops.c:175-199 | the search succeeds before the mask runs out: the panic is not reached |
| `BitPos.Bitpos` | redis-3.0/src/bitops.c:122-200 | the first position with the bit; for a missing 0 the end of the string, for a missing 1 minus one |
| `BitOp.WordOp` | redis-3.0/src/bitops.c:371-421 | an operation on a word is the operation on its eight bytes |
| `BitOp.FastPath` | redis-3.0/src/bitops.c:359-422 | the blocks of four words of all sources are combined as the bytes are |
| `BitOp.Lengths` | redis-3.0/src/bitops.c:324-351 | the shortest and the longest source |
| `BitOp.Compute` | redis-3.0/src/bitops.c:353-438 | the result has the length of the longest source, and each byte is the combination of the zero-padded sources |
| `BitOp.CombinedMeans` | redis-3.0/src/bitops.c:313-438 | bit by bit: AND sets what all strings have, OR what some have, XOR what an odd number have, NOT what the string does not have; a string that has ended counts as zeros |
| `BitOp.Command` | redis-3.0/src/bitops.c:313-438 | NOT is refused exactly unless it has one source; the result is as long as the longest source, and each of its bits is what the operation means for the bits of the sources |

## Left out

- Multi.Server.Serve: replies are those of the transaction commands; what the executed commands reply is not modelled.
- LzfCompress.Compress: the output buffer has one cell beyond `out_len`, as the caller in rdb.c allocates, because a run header is patched before the room test of a match; the bytes beyond the result are not described.
- LzfRoundTrip.LoadLzf: requires a non-empty stream; with a recorded length of 0 the decompressor reads a byte beyond its input.
- LzfDecompress.Decompress: requires a non-empty input, because the routine reads the first byte before it looks at the length.
- HllRegisters.PatLen: MurmurHash64A is an arbitrary function; an element is represented by its hash.
- HllCommands.Keyspace.PfCount: the floating-point formula and bias correction are an arbitrary function of register sum and zero count that gives 0 for an empty sketch; the sums are over exact rationals.
- HllObject.Hll.SparseAdd: opcode strings that do not cover the 16384 registers (corrupted values), and the pointer arithmetic of the in-place memmove, are not modelled; the opcode string is a sequence that is replaced.
- HllCommands.Keyspace.PfAdd: wrong types, arbitrary strings set over a sketch, key expiry and replication are not modelled.
- ClusterRouting.GetNodeByQuery: commands without keys and the cluster-down test are not modelled; the hash slot of a key is an arbitrary function.
- ClusterMigration.MigrationRefinesStore: MIGRATE is one successful step, because an ambiguous reply of a failed one can leave a key on both sides; one slot is followed; claims of the slot by third nodes and failovers of the two nodes are not steps; nodes unknown to SETSLOT are not modelled.
- ClusterElection.ElectionSafety: the set of slot-serving masters is fixed and agreed on, and nodes do not restart (the vote is not persisted before the acknowledgement is sent); the condition is exact for the counts being genuine (GenuineIff) and sufficient for safety, because a false count need not elect a second slave.
- ClusterEpochs.RunDominates: epochs are unbounded numbers; hard reset and edited configuration files are not modelled.
- ClusterCollision.CollisionsTerminate: no other source of epochs (failover, manual bump, slot import) is active.
- ClusterServer.Server.ReceiveUpdate: the slots that an UPDATE claims are the subject of ClusterSlots.Table.ReceiveUpdate.
- ClusterServer.Server.HandleSlaveFailover: the tests on time, rank and offsets are arguments; requires that a master pointer points to a node.
- ClusterServer.Server.SendFailoverAuthIfNeeded: requires that the master a slave is recorded with is itself known.
- ClusterSlots.Table.UpdateSlotsConfigWith: requires that our master pointer, if there is one, points to a known node; nothing is promised about roles and keys when the update aborts.
- ClusterSlots.Table.constructor: the other ways to leave a slave with slots or without a master, SETSLOT NODE sent to a slave and edited configuration files, are not modelled; nodes become known elsewhere.
- ClusterSlots.Table.ReceivePing: a sender that is not known, packets of the handshake, and the slots of a packet that agree with those recorded, which the code skips, are not distinguished; the order of the epoch collision test (ClusterServer.Server.ReceivePing) is not part of it.
- ClusterSlots.Table.DelNodeSlots: the returned number is not described; the code counts every slot.
- ClusterSlots.Table.DelNode: blacklists and fail reports are not modelled; slave lists are sets; a back pointer that is left dangling has no effect, while the code would follow it.
- PqSort.Pqsort: elements are values, so the choice of a word-wise or byte-wise swap is not modelled; byte addresses appear in the skip test only.
- Multi.Server.ExecCommand: command replies, propagation to slaves and monitors, and expiry of watched keys are not modelled; a data command is given by the keys it reports as modified and their new values.
- EventPort.Port.ApiPoll: a failing kernel call in delete or poll aborts the process and is not modelled; descriptors that are closed while associated are not modelled.
- Sha1.Context.Update: requires that the 32-bit sum of buffered bytes and length does not wrap, without which the code writes beyond its buffer.
- Sha1.HashPieces: pieces are shorter than 2^32 - 63 bytes.
- BitCount.Popcount: the 256-entry table `bitsinbyte` is replaced by the number of set bits of the byte.
- BitPos.Bitpos: a machine word has eight bytes; the normalisation of BITPOS and BITCOUNT arguments is not modelled.
- BitOp.Command: keys of a wrong type and the storing of the result are not modelled; a key that does not exist is an empty string.
- Cluster handshake, addresses, gossip, failure detection, replica migration and nodes.conf are not modelled: time and failure flags are non-deterministic arguments.
- The slot allocation of redis-trib.rb (`alloc_slots`) is not modelled.
- Publish/subscribe, background I/O, slow log, blocking operations, configuration, CRC tables and the file checkers are not modelled: they would only add easier facts.
- Sockets, threads, files and the Win32 layer are not modelled.
