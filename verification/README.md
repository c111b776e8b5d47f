# LTE simulator: a verified model

The repository simulates an LTE base station and its user equipment over TCP. This project models its
data structures and protocols in Dafny and proves what they promise:

- **Chained hash map** (`Buckets`, `HashMaps`, `MapRuns`, `Passes`). `HashMaps` is the C code on the heap:
  an array of bucket heads, linked overflow nodes, doubling, and deletion by copying the successor into the
  deleted node. `Buckets` has the same table as values and relates it to a finite map. The loop variable
  `last_entry` of `hashmap_delete` is never advanced, so lines 337-343 do not run: in `HashMap.Delete` that
  branch is proved unreachable. The bucket invariant is therefore "live nodes with distinct keys that hash
  here, then at most one blank node". A ghost flag `freed` marks the nodes given to `free`, and every loop
  that follows a `next` pointer is proved to read no node with that flag.
- **Deleting while iterating** (`Passes`, `Server`). `handle_client_inactivity` deletes the entry that
  `hashmap_iter` is at. Because the successor is copied into the deleted node, the walk then steps over that
  copy. The results are a halving bound per pass, its tightness, exactly when one pass is enough, and a bound for
  each single entry that holds with any puts, doublings and deletes in between.
- **MurmurHash3 x64_128** (`Bits`, `Murmur`, `KnownHashes`, `SocketKeys`). 64-bit words are naturals below 2^64
  with explicit wrap-around, and exclusive-or and or are defined bit by bit. Every stage is a permutation with an
  explicit inverse, which gives injectivity theorems for messages of any length. Two published values of the
  function, one with two blocks and a tail, are derived step by step. The hash map is proved for an arbitrary hash
  function.
- **Server** (`Decimal`, `Registry`, `Server`, `ServerRuns`). `Registry` is the step machine of the handlers over
  runs of events; `Server` is the handlers on the heap, each proved to be one such step; `ServerRuns` composes them:
  every run on the heap is a run of that machine, and a silent client leaves within a bounded number of ticks.
  What a record holds, who is pinged, who may be kicked and what is answered are stated in terms of the packets
  that came in. Inputs that the operating system cannot give, such as a packet from a closed socket, are skipped there.
- **User equipment** (`Int8s`, `Battery`, `Cells`). Two machines with 8-bit fields. Their results are about
  whole runs and are equivalences where that is possible.
- **File broadcast** (`FileTransfer`). The chunk loop and the receiving end.

`Arithmetic` and `Wrappers` are helpers. `dafny verify dfyconfig.toml` checks everything.

Where code and documentation differ, the model follows the code. `hashmap.h` says that the default size is
64; the code uses 128. It says that a callback stops a walk by returning 1; any non-zero result does. Comments in
`hashmap.c` speak of the lower 64 bits of the hash; the code takes the second of its two words
(`SocketKeys.SlotWord`). A map created with size 1 gets `max_size` 0, and its first put never returns
(`MapRuns.InitialRoom`, `Buckets.PutReturnsIffRoom`). `packet_handler.h` asks for a `PING_TIMEOUT` above both ping
periods, so that clients are pinged before they are kicked. That holds exactly for clients whose battery state is known, by random
access, by a battery report, or by chance (`Registry.PingedBeforeKicked`): `accept_client` leaves the battery state
and the last activity uninitialized (`Registry.KickedWithoutPing`). `user_equipment.h` says that the low
notification goes out when the power goes from high to low. With pings in between a discharge can pass without one
(`Battery.SilentDischarge`), and exactly when is `Battery.DischargeNotifies`.

## Model

| member | source | states |
|---|---|---|
| HashMaps.RoundUp | lib/hashmap.c:64-76 | the bit scan gives the least power of two that is at least n, for every n from 1 to 2^30 |
| HashMaps.HashMap.constructor | lib/hashmap.c:58-89 | a fresh map is empty and valid, with 128 slots by default or the least power of two, and room for three quarters of that |
| HashMaps.HashMap.Size | lib/hashmap.c:128-130 | size is the number of keys |
| HashMaps.HashMap.Get | lib/hashmap.c:139-165 | get finds exactly the value that the finite map holds, or nothing |
| HashMaps.InsertTable | lib/hashmap.c:178-220 | with and without key comparison: updates in place, fills the slot, or links a new node after the last live one and drops a blank; reports a new key exactly; keeps the heap shape |
| HashMaps.MoveChain | lib/hashmap.c:238-257 | every entry of one old chain is reinserted once and in order, and of its overflow nodes exactly the live ones are freed, each after its last use |
| HashMaps.MoveEntries | lib/hashmap.c:231-261 | reinserting all entries without comparing keys builds exactly the doubled table |
| HashMaps.HashMap.DoubleSize | lib/hashmap.c:226-267 | doubling changes no key and no value, and doubles both sizes |
| HashMaps.HashMap.Put | lib/hashmap.c:278-291 | put sets the key in the finite map, returns whether it was new, ends, doubles at most once and only when full, keeps count and capacity within their bounds, and is the recursion on values that PutReturnsIffRoom is about |
| HashMaps.CopySuccessor | lib/hashmap.c:322-329 | the deleted node takes over its successor, the successor is freed, and the rest of the chain keeps its order |
| HashMaps.RemoveEntry | lib/hashmap.c:315-345 | a found entry leaves its chain, by copying its successor or by blanking, and no other chain changes |
| HashMaps.HashMap.Delete | lib/hashmap.c:299-352 | delete removes exactly the key, reports whether it was there, keeps all other entries in order, and never takes the unlinking branch |
| HashMaps.HashMap.Iterate | lib/hashmap.c:399-411 | the callback sees the entries in bucket and chain order up to the first non-zero result, which is returned; all of them if there is none |
| Buckets.EntriesAreTheMap | lib/hashmap.c:399-411 | the entries of a walk are the finite map, every key once |
| Buckets.EntriesPrefix | lib/hashmap.c:399-411 | the walk goes through the buckets from the first to the last, and through each from its head |
| Buckets.InsertRepresents | lib/hashmap.c:178-220 | inserting keeps distinct keys in their own buckets and is the update of the finite map |
| Buckets.DeleteRepresents | lib/hashmap.c:299-352 | deleting keeps distinct keys in their own buckets and is the removal from the finite map |
| Buckets.DoubledRepresents | lib/hashmap.c:226-267 | doubling keeps distinct keys in their new buckets and answers every lookup as before |
| Buckets.DoubledSplitsBuckets | lib/hashmap.c:237-258 | old bucket i is dealt out to the buckets i and i + n in the old order, every entry once, with no blank left beside a live node |
| MapRuns.Run | lib/hashmap.c:58-352 | for every hash function, every initial size but 1 and every sequence of put, get, delete and size, all answers are those of a finite map |
| MapRuns.InitialRoom | lib/hashmap.c:58-89 | a new map has room for an entry if and only if it was not asked for size 1 |
| Buckets.PutReturnsIffRoom | lib/hashmap.c:278-291 | the recursion of put, cut off after some number of calls, has returned for some number if and only if max_size was at least 1, and then two calls are enough |
| Passes.PassLeavesSurvivors | lib/hashmap.c:399-411 | a walk that deletes as it goes leaves what a recursion over the list says: each deletion shields the next entry |
| Passes.SurvivorsComeFromTheList | serverLTE/client_handler.c:35-47 | a pass adds nothing and removes no entry that is not stale |
| Passes.PassKeepsBucketsOk | lib/hashmap.c:299-352 | a pass keeps the bucket invariant |
| Passes.PassHalves | serverLTE/client_handler.c:35-47 | a pass leaves at most half of the stale entries, rounded down |
| Passes.AllStaleLeavesHalf | serverLTE/client_handler.c:35-47 | that bound is met by every bucket of stale entries |
| Passes.ClearedIfApart | serverLTE/client_handler.c:35-47 | a pass clears a bucket of stale entries if and only if no two neighbours in it are both stale |
| Passes.PassClearsIff | serverLTE/client_handler.c:35-47 | one pass removes all stale entries of the table if and only if no bucket has two stale neighbours |
| Passes.PassesHalveRepeatedly | serverLTE/client_handler.c:35-47 | k passes leave at most n / 2^k of n stale entries |
| Passes.PassesFinish | serverLTE/client_handler.c:35-47 | fewer than 2^k stale entries are gone after k passes |
| Passes.StaleEntryLeaves | serverLTE/client_handler.c:35-47 | an entry that stays stale, with p entries in front of it, is gone after p + 1 passes, whatever other puts, doublings and deletes happen between them |
| Murmur.RotateBack | lib/MurmurHash3.c:46-48 | a rotation by r is undone by one by 64 - r |
| Murmur.FmixIsPermutation | lib/MurmurHash3.c:65-74 | fmix is a permutation of the 64-bit words, with its inverse |
| Murmur.BlockIsPermutation | lib/MurmurHash3.c:95-107 | mixing in any block is a permutation of the state, with its inverse |
| Murmur.BlockInjectiveInWords | lib/MurmurHash3.c:95-107 | from one state two blocks have the same outcome if and only if they are equal |
| Murmur.FinishIsPermutation | lib/MurmurHash3.c:142-154 | for every length the finalization is a permutation of the state, with its inverse |
| Murmur.AbsorbInjectiveInState | lib/MurmurHash3.c:95-137 | a message of any length never merges two states |
| Murmur.HashSeparatesWindow | lib/MurmurHash3.c:78-155 | messages that differ only inside one block, or only inside the tail, have equal hashes if and only if they are equal |
| Murmur.HashInjectiveOnShortKeys | lib/MurmurHash3.c:78-155 | the hash is injective on keys of one length up to 16 bytes |
| Murmur.HashSeparatesSeeds | lib/MurmurHash3.c:84-85 | one message has the same hash under two seeds only if the seeds are equal |
| Murmur.LengthIsSeen | lib/MurmurHash3.c:142-154 | the finalization of one state under two lengths is the same if and only if the lengths are equal |
| Murmur.PaddingIsSeen | lib/MurmurHash3.c:109-155 | a message and the same message with zero bytes up to the end of its last block always have different hashes, although they are absorbed alike |
| KnownHashes.HelloHash | lib/MurmurHash3.c:78-155 | the published hash of "hello" under seed 0, a message of a tail only |
| KnownHashes.FoxHash | lib/MurmurHash3.c:78-155 | the published hash of "The quick brown fox jumps over the lazy dog" under seed 0, two blocks and a tail that fills both words |
| KnownHashes.HelloSlot | lib/hashmap.c:139-146 | the slot is the second word modulo the table size: 25 for "hello" in a table of 128 |
| Murmur.MixTail | lib/MurmurHash3.c:112-137 | the fall-through switch mixes in the two little-endian words of the zero-padded tail, for all 16 tail lengths |
| Murmur.MurmurHash3 | lib/MurmurHash3.c:78-155 | the block loop, switch and finalization compute the recursive definition that the theorems are about |
| SocketKeys.SocketHashesDiffer | serverLTE/client_object.c:9-12 | socket keys with equally many digits have different 128-bit hashes |
| Decimal.AtoiUndoesPrint | serverLTE/client_object.c:31-34 | atoi reads back every printed int |
| Decimal.PrintUndoesAtoi | serverLTE/client_object.c:10-11 | printing gives back a string exactly if it is digits without a leading zero |
| Decimal.KeyFits | serverLTE/client_object.c:22-23 | the seven characters of the key buffer are enough exactly up to socket 9999999 |
| Registry.ReachableStates | serverLTE/packet_handler.c:30-68 | in every run no handler dereferences NULL, exactly the open sockets are registered, each record under its socket, and the number of entries is accepts minus removals |
| Registry.RecordsFollowTheRun | serverLTE/client_handler.c:9-18 | after random access or a pong, last_activity is the time of the latest one, and after random access the battery state is a known one |
| Registry.RecordsAreTheHistory | serverLTE/client_handler.c:9-18 | in every run exactly the sockets accepted and not left or kicked since are registered, and every field of a record is what the latest event of its kind set since accept, or what malloc returned |
| Registry.PreambleIsTopBits | serverLTE/packet_handler.c:94-96 | the preamble index tells the four quarters of the int16_t range apart: -128, -64, 0 and 64 |
| Registry.BatteryIsLastReport | serverLTE/packet_handler.c:108-118 | in every run the stored battery state is the one last reported, low as LOW and high as OK, random access as OK |
| Registry.PingedWhenDue | serverLTE/packet_handler.c:129-144 | in every run a client is pinged if and only if it was last heard of more than 5 s ago, or 10 s if its last battery report was low |
| Registry.KickedOnlyWhenQuiet | serverLTE/client_handler.c:35-47 | the same limit of 4000 s for every kicked client, also for one that was never heard of and whose time is what malloc returned |
| Registry.KickedOnlyWhenSilent | serverLTE/client_handler.c:35-47 | in every run a client is kicked only more than 4000 s after its latest random access or pong |
| Registry.BatteryFollowsTheRun | serverLTE/packet_handler.c:108-118 | in every run a battery state is OK or LOW if and only if random access or a battery report set it since accept, or malloc's memory held such a value; random access is enough |
| Registry.PingedBeforeKicked | serverLTE/packet_handler.c:120-144 | in every run a kicked client was pinged earlier in the same tick if and only if its battery state was known in that sense |
| Registry.KickedWithoutPing | serverLTE/server.c:100-124 | a run in which a client without random access is kicked and not pinged |
| Registry.TicksHalve | serverLTE/packet_handler.c:120-127 | k ticks at one clock reading leave at most n / 2^k of n stale clients, in every run whose ticks do what ServerRuns.TickRepeatedly shows of the heap |
| Registry.TicksFinish | serverLTE/packet_handler.c:120-127 | fewer than 2^k stale clients are gone after k such ticks |
| Server.Server.constructor | serverLTE/server.c:10-16 | the server starts with a new and empty map |
| Server.Server.GetClientBySocket | serverLTE/client_object.c:9-19 | the lookup under the printed socket finds the record of exactly that socket |
| Server.Server.AcceptClient | serverLTE/server.c:100-124 | accepting is the registry's step, keeps every key the decimal form of its record's socket, and puts a newly allocated record into the table |
| Server.Server.HandleRandomAccess | serverLTE/packet_handler.c:7-15 | random access is the registry's step, is answered with the preamble index and the time, and changes no other record |
| Server.Server.HandlePong | serverLTE/packet_handler.c:17-22 | a pong is the registry's step and changes no other record |
| Server.Server.HandleBattery | serverLTE/packet_handler.c:108-118 | a battery report is the registry's step and changes no other record |
| Server.Server.SendRrcSetup | serverLTE/packet_handler.c:84-92 | the reply has the RNTI of the socket's own record |
| Server.Server.RemoveClient | serverLTE/packet_handler.c:24-27 | leaving removes exactly that client |
| Server.Server.ParsePacket | serverLTE/packet_handler.c:30-68 | whatever arrives on an open socket is the registry's step for it, no lookup fails, random access and RRC requests alone are answered, and the table changes only when the client leaves; InputsAreTheHistory says what each packet means |
| Server.Server.HandleClientInactivity | serverLTE/client_handler.c:35-47 | the callback deletes by socket exactly the entry it was called with, if that is stale |
| Server.Server.VisitEntry | lib/hashmap.c:404-408 | after the callback the walk goes on to a node of the changed chain, which is not a freed one |
| Server.Server.InactivityPass | serverLTE/client_handler.c:35-47 | the walk with deletion leaves exactly what Passes says, kicks only stale clients and at least half of them, and all of them if and only if no bucket has two stale neighbours |
| Server.Server.PingPass | serverLTE/packet_handler.c:129-144 | exactly the clients that are due get a ping, each one |
| Server.Server.Tick | serverLTE/packet_handler.c:120-127 | a tick is a step that the registry allows, pings exactly the clients that are due, each once, and of the clients it kicks exactly those with a known battery state |
| Server.Server.CloseClientsSockets | serverLTE/client_object.c:27-34 | reading the keys back closes exactly the open sockets, each once |
| ServerRuns.Advance | serverLTE/server.c:89-98 | one input, be it a connection, a packet or a tick, is one enabled step of the registry and one change of the table, sends what that step has to send, and leaves the server ready for the next |
| ServerRuns.Step | serverLTE/server.c:89-98 | besides, every other client that is silent stays at its place in its bucket or moves up, and a tick moves each stale one up or out |
| ServerRuns.PositionIsBelowCount | lib/hashmap.c:399-411 | in the server's table a client has fewer clients in front of it in its bucket than are registered |
| ServerRuns.SentIs | serverLTE/packet_handler.c:84-144 | what a step after a run sends, by the history: a tick pings exactly the clients that are due, each once, and of those it kicks exactly those whose battery state was known; the RRC setup carries the RNTI of the latest random access |
| ServerRuns.InputsAreTheHistory | serverLTE/packet_handler.c:45-67 | in every run from the start the history of a connection is that of its packets: a random access request or pong is the latest sign of life, a battery report sets the battery state it names, Closed and UeOff end the connection |
| ServerRuns.SentAtStep | serverLTE/packet_handler.c:45-144 | what every step of such a run sends and whom it kicks, by the packets before it: pings after 5 s or 10 s without random access or pong, kicks only after 4000 s |
| ServerRuns.Play | serverLTE/packet_handler.c:120-127 | any inputs after any run make a run of the registry; the table goes through the listed changes; a client that is silent for more ticks than there were clients in front of it in its bucket is gone, whatever the others do, and so is one that is silent for as many ticks as there were clients; and every step sends what SentIs says |
| ServerRuns.Run | serverLTE/server.c:79-98 | every run of the server on the heap from its start, for every hash function and all inputs, is a run of the registry, so that the results about runs hold of it; and the inputs alone say which of them happen, who is registered at the end, every field of each record, and all that is sent |
| ServerRuns.TickRepeatedly | serverLTE/packet_handler.c:120-127 | on the heap, k ticks at one clock reading are such a run of the registry and leave at most n / 2^k of n stale clients, and none if n is below 2^k |
| Battery.UeBattery.CheckBatteryStatus | clientLTE/user_equipment.c:21-40 | the check is the function that the run theorems are about |
| Battery.UeBattery.UpdateBattery | clientLTE/user_equipment.c:45-76 | an update is the step that the run theorems are about |
| Battery.UeBattery.DecreaseAfterPing | clientLTE/user_equipment.c:79-91 | a ping is the step that the run theorems are about |
| Battery.LevelStaysInRange | clientLTE/user_equipment.c:45-91 | over any run of updates and pings the level is even and within 0..100, and no sum leaves int8_t |
| Battery.TurningDirection | clientLTE/user_equipment.c:64-73 | an update that ends at 0 leaves it charging, one that ends at 100 discharging |
| Battery.SentMeans | clientLTE/user_equipment.c:21-76 | the flag is set exactly if a notification went out and no update ended at 0 or 100 since |
| Battery.NotesAreSeparated | clientLTE/user_equipment.c:21-91 | between two notifications some update ended at 0 or 100 |
| Battery.UndisturbedCycle | clientLTE/user_equipment.c:21-76 | without pings the battery repeats 18 ticks with one low and one high notification each, for any number of updates between ticks |
| Battery.UndisturbedLevels | clientLTE/user_equipment.c:24-39 | those notifications go out at 16 and at 24 |
| Battery.NotesExactly | clientLTE/user_equipment.c:21-40 | in every run a step notifies if and only if its check meets the window of its direction, its send works and nothing was sent since the last turn; so a failed send leaves the next check free to send |
| Battery.LowMeans | clientLTE/user_equipment.c:21-40 | power_is_low is set if and only if the last check that met a window met the low one |
| Battery.LevelAccounts | clientLTE/user_equipment.c:45-91 | between turns the level changes by 12 for every tick, up or down by the direction, and by 2 down for every ping, if none finds the battery empty |
| Battery.EmptyStaysEmpty | clientLTE/user_equipment.c:86-89 | a ping that finds the battery empty leaves it empty and its direction alone |
| Battery.TurnsExactly | clientLTE/user_equipment.c:45-76 | an update turns the battery if and only if the level, moved by 12 if there was a tick, is not strictly between 0 and 100, and stops it there |
| Battery.TickSpacing | clientLTE/user_equipment.c:45-63 | an update ticks if and only if a second has passed since the second clock reading of the last one that did, or since the start |
| Battery.DischargeNotifies | clientLTE/user_equipment.c:21-31 | a discharge has notified if and only if some check since the last turn met the low window of its step, 9..20 for an update and 19..20 for a ping, and could send |
| Battery.ChargeNotifies | clientLTE/user_equipment.c:32-39 | a charge has notified if and only if some check since the last turn met the high window of its step, 20..31 for an update and 20..21 for a ping, and could send |
| Battery.SilentDischarge | clientLTE/user_equipment.c:21-91 | a run with working sends that empties the battery without any notification |
| Battery.EveryChargeNotifies | clientLTE/user_equipment.c:32-39 | with working sends every charge that gets to 100 has sent its high notification, whatever pings come in between |
| Battery.Run | clientLTE/user_equipment.c:12-91 | any calls of the object, with any clock readings, send exactly the notifications of the run that the theorems are about |
| Cells.UeCells.constructor | clientLTE/user_equipment.c:117-134 | the cells start at the drawn powers with course +5 |
| Cells.UeCells.UpdateRsrps | clientLTE/user_equipment.c:136-163 | an update that is due takes every cell one step of the walk, another changes nothing |
| Cells.WalkReflects | clientLTE/user_equipment.c:147-157 | over any number of updates the power stays within 0..97 without overflow, the course is +5 or -5 and points inward at a boundary |
| Cells.ClosedForm | clientLTE/user_equipment.c:117-163 | the power after n updates: up to the first boundary, then a wave of period 40 |
| Cells.UeCells.CheckEvents | clientLTE/user_equipment.c:165-208 | the chain of checks is the function that the run theorems are about |
| Cells.UpdateSpacing | clientLTE/user_equipment.c:136-163 | an update is due if and only if more than a second has passed since the second clock reading of the last one that was, or since the start |
| Cells.A1Reports | clientLTE/user_equipment.c:170-181 | A1 is reported if and only if the serving cell is above 19 and was below it at a step since which nothing was reported |
| Cells.A2Reports | clientLTE/user_equipment.c:170-186 | A2 is reported if and only if the serving cell is below 77 and was above it at a step since which nothing was reported |
| Cells.A3Reports | clientLTE/user_equipment.c:187-195 | when A3 is reported, exactly: between two reports a step had the neighbour below the serving cell |
| Cells.A4Reports | clientLTE/user_equipment.c:196-204 | when A4 is reported, exactly: between two reports a step had the neighbour below 77 |
| Cells.Run | clientLTE/user_equipment.c:210-215 | a run of the object with any clock readings reports exactly what the event theorems say of the powers in closed form |
| FileTransfer.Broadcast | serverLTE/packet_handler.c:201-222 | the client appends the file and zeros up to the next multiple of 16, in exactly ceil(size / 16) messages |
| FileTransfer.Receiver.DownloadData | clientLTE/handle_messages.c:51-57 | one message appends its 16 bytes and counts them |
| FileTransfer.ReceivedBeginsWithFile | serverLTE/packet_handler.c:201-222 | the received bytes begin with the file, and fewer than 16 are added |
| FileTransfer.TransferIsExact | serverLTE/packet_handler.c:201-222 | the client gets the file itself if and only if its size is a multiple of 16 |
| FileTransfer.SameTransfer | serverLTE/packet_handler.c:201-222 | two files arrive alike if and only if they take equally many messages and differ in trailing zeros only |

## Left out

- Server.Server.Tick: every callback reads the clock for itself in the code; here one reading serves a whole tick.
- Server.Server.ParsePacket: a failed read ends the process in the code and is not modelled; a partial read
  is not either.
- Server.Server.CloseClientsSockets: the callback of the code returns no value but is called as one that returns an
  int, so that what `hashmap_iter` tests after it is undefined; here it is 0 and the walk goes on.
- Server.Server.AcceptClient: sockets above 9999999 do not fit the key buffer of the code and are excluded.
- HashMaps.HashMap.Put: the counters are unbounded integers; the helper lemma GrowthNeedsEntries says up to which
  size they fit an int.
- HashMaps.HashMap.Iterate: the callback is a pure function; the one callback that deletes is modelled in Server.
- Murmur.MurmurHash3: block reads are little-endian, as on the machines that the code was written for.
- FileTransfer.Broadcast: a failed send ends the process in the code; here every send works, and files have fewer
  bytes than an int can count. The code reads one element of 16 bytes, and ISO C leaves an element that is read
  only in part indeterminate; the last message here is that of a library that copies the bytes it did read.
- Thread interleavings: the map has no lock, so handlers and ticks are atomic steps here.
- Memory: leaked blank nodes and replaced values are not counted, and the keys and values that a deletion frees are
  not tracked as nodes are.
- `hashmap_clear`: it keeps the `next` of blanked heads, and the server never calls it.
- `hashmap_destroy`, sockets, epoll, signals, logging, file handles, and the random access and RRC handshakes.
- The measurement control thread: straight-line sends to every client.
- The constant fields of an RRC setup, and whether an answer or a ping of the server reaches its client.
- The fields `mcc` and `mnc` of a client record: nothing reads them.
