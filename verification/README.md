# A verified model of the EF_VI receive path and the Onload code it ships with

The EF_VI client receives market data through a NIC's descriptor ring, and carries the headers of the
Onload stack, most of whose code is inline. This project models the parts of both in which several
operations, or several threads, have to keep a promise together, and proves those promises for every
input, every reachable state and every interleaving.

| file | what it models |
|---|---|
| `ThrRef.dfy` | the three-level reference count of a tcp helper |
| `ThrRefCalls.dfy` | how calls on it end, whatever others do |
| `Eplock.dfy` | the endpoint lock word with its deferred-work flags, call by call |
| `EplockAccess.dfy` | the same, load by load and swap by swap |
| `EplockBits.dfy` | the same, bit by bit |
| `DlList.dfy` | circular doubly linked lists in shared state |
| `ConcurrentAdd.dfy` | adding to such a list while others take it |
| `BackLinks.dfy` | the backward links of such a list |
| `RxRing.dfy` | the pool of packet buffers, the descriptor ring and the event loop |
| `FwdVersion.dfy` | reading a forward-table row while the control plane rewrites it |
| `OnloadHash.dfy` | the hashes of the lookup tables: local port recovery and double hashing |
| `HashBits.dfy` | those hashes, bit by bit |
| `Prefix.dfy` | prefix masks, prefix matching and the matching of forward-table rows |
| `PrefixSet.dfy` | the 192-bit bitmap of prefix lengths |
| `Bond.dfy` | choosing the hardware port of a bonded interface |
| `BondHash.dfy` | the hash that chooses, bit by bit |
| `TcpHeaders.dfy` | the fields of prepared headers that change |
| `SendScript.dfy` | what any send loop sends, and when its packets are right |
| `DelegatedSend.dfy` | headers patched in place between delegated sends |
| `Binary.dfy`, `Word64.dfy`, `Sequences.dfy` | binary digits, words as sequences of bits, distinct sequences |

How the source is represented:

- Code that updates memory in place is a class or an array with methods and loops. Each method is proved
  against a function of the old state, and what the source promises is proved of those functions.
- A compare-and-swap loop appears twice. As a method it has a parameter that says what other threads
  store between its load and its swap, and it is proved to take effect as one atomic step. As a step of a
  transition system it is interleaved with the steps of any number of threads. `Exec` folds a sequence of
  moves over a state; a move that does not apply changes nothing, so a statement about every sequence is
  one about every interleaving. Atomic accesses are sequentially consistent.
- Machine words are sequences or sets of bits, or numbers with the wrap-around written out. The host is
  little-endian.
- What the NIC reports in a poll, which links a loop body deletes, when a send loop gives up and what the
  other threads do are parameters or arbitrary choices.

Some promises turn out to hold only under a condition. For each the exact condition is proved, as an
if-and-only-if, with inputs at which the promise fails:

- The ring is at least half full before every poll exactly when there are at most 1 or at least 29
  buffers (`RxRing.HalfFullExactly`). From 16 to 28 the refill threshold is below the half, and the code
  gets there (`RxRing.HalfEmpty`).
- A link that a traverser has finished with stays self-linked exactly if it was not both taken and
  finished with between the swap and the last store of the concurrent add that found it first
  (`BackLinks.FinishedExactly`). In `BackLinks.SpoiledRun` it was; in `BackLinks.HarmlessRun` it was taken
  in between but finished with later.
- A send loop may leave out the header update exactly when the headers are already set for that size and
  flag (`SendScript.UpdateNeeded`). The sample's rule for leaving it out is right exactly for loops that
  always send all they may (`SendScript.SampleRuleExactly`); with other sizes it gets the lengths right
  exactly if no full packet but the last follows a smaller one (`SendScript.SampleLengthsExactly`, and
  `SendScript.StaleLength` at an input).
- The lock call for one flag reports the truth exactly for at most one bit (`Eplock.OneFlagOnly`), as its
  comment demands.
- The local port can be recovered from a masked hash exactly when the mask covers the 16 low bits
  (`OnloadHash.RecoveryExactly`).

Two remarks about the bond hash, that it reads transport ports and hardware addresses only where it should
(`Bond.FragmentsTogether`, `Bond.LayersRead`), are kept in that module.

## Model

| member | source | states |
|---|---|---|
| `ThrRef.Counters.GetOne` | EF_VI/include/onload/tcp_helper_ref.h:62-90 | for any 32-bit counters and whatever other threads do between load and swap, success adds one unit to this level only, never to a dead counter, and never sets the base's sign bit; failure adds nothing and names its cause |
| `ThrRef.Counters.DropOne` | EF_VI/include/onload/tcp_helper_ref.h:93-98 | the counter goes down by one modulo 2^32 and the release handler runs exactly when that makes it zero |
| `ThrRef.Counters.Get` | EF_VI/include/onload/tcp_helper_ref.h:103-123 | all or nothing, with other threads at work also between the decrements of the roll-back: one unit on every level up to the type, or none at all, with the others' changes kept; a handler runs here exactly if the roll-back took the last unit of its level at that moment |
| `ThrRef.Counters.Drop` | EF_VI/include/onload/tcp_helper_ref.h:126-135 | with other threads at work between the levels, one unit off every level up to the type and no other, each handler run exactly if its level had one unit at its decrement |
| `ThrRef.StepInvariant` | EF_VI/include/onload/tcp_helper_ref.h:62-135 | every atomic access of every agent, in a get, a roll-back, a drop, or a holder's get or drop of the single level on top, keeps each counter equal to the number of agents holding that level, without wrapping |
| `ThrRef.RunInvariant` | EF_VI/include/onload/tcp_helper_ref.h:62-135 | that invariant holds after every interleaving from a single owner |
| `ThrRef.CountersOrdered` | EF_VI/include/onload/tcp_helper_ref.h:22-29 | in every interleaving app <= file <= base, each the number of its holders, all below 2^31 although only base is checked |
| `ThrRef.ZeroIsFinal` | EF_VI/include/onload/tcp_helper_ref.h:73-98 | a level that reached zero stays zero for the rest of the run and its handler has run exactly once |
| `ThrRef.ReleaseOrder` | EF_VI/include/onload/tcp_helper_ref.h:93-98 | levels die from the top down; a handler runs exactly at the access that takes its counter from non-zero to zero |
| `ThrRef.AllReleased` | EF_VI/include/onload/tcp_helper_ref.h:103-135 | when every agent is out of its calls and holds nothing, all counters are zero and every handler has run once |
| `ThrRefCalls.GetEnds` | EF_VI/include/onload/tcp_helper_ref.h:103-123 | in every interleaving a get ends with every level up to the one asked for if none of its loads was refused, and with nothing at all if one was; a load is refused exactly for a zero counter, or a base counter whose successor has the sign bit |
| `ThrRefCalls.RaiseEnds` | EF_VI/include/onload/tcp_helper_ref.h:62-90 | in every interleaving a holder's get of the next level ends one level up, or where it was if its load was refused |
| `ThrRefCalls.DropEnds` | EF_VI/include/onload/tcp_helper_ref.h:126-135 | in every interleaving a drop ends with nothing held, after exactly one access for each level it held |
| `ThrRefCalls.AloneEnds` | EF_VI/include/onload/tcp_helper_ref.h:73-135 | from any state an agent that is left alone ends its call within fifteen accesses: no retry loop is stuck |
| `Eplock.Word.TrylockOnce` | EF_VI/include/onload/eplock.h:47-51 | takes a free lock in one step; otherwise changes nothing |
| `Eplock.Word.HolderSetFlags` | EF_VI/include/onload/eplock.h:99-108 | under any interference by others the flags are set in one atomic step, and the lock bit is always seen set |
| `Eplock.Word.ClearFlags` | EF_VI/include/onload/eplock.h:111-122 | clears the flags in one atomic step and returns the very word it cleared them from |
| `Eplock.Word.AlertHolder` | EF_VI/include/onload/eplock.h:143-152 | in one atomic step, sets all the flags of a locked word or reports that it is unlocked and leaves it |
| `Eplock.Word.TrylockSetting` | EF_VI/include/onload/eplock.h:157-164 | in one atomic step, sets the flags and the lock bit and tells whether the lock was free |
| `Eplock.Word.LockOrDeferOne` | EF_VI/include/onload/eplock.h:169-186 | in one atomic step, locks a free word or leaves one flag to the holder |
| `Eplock.Word.LockOrDefer` | EF_VI/include/onload/eplock.h:191-208 | in one atomic step, locks a free word or leaves all the flags to the holder |
| `Eplock.Word.Unlock` | EF_VI/include/onload/eplock.h:213-220 | under any interference releases only a word that has no flag of the mask at that moment, by the step that `EplockBits.UnlockBits` describes; otherwise changes nothing |
| `Eplock.OneFlagOnly` | EF_VI/include/onload/eplock.h:166-186 | the one-flag call leaves what it reports, for every word, if and only if it is given at most one bit |
| `Eplock.StepExclusive` | EF_VI/include/onload/eplock.h:47-220 | every call keeps: the lock bit is set iff there is a holder, and there is at most one |
| `Eplock.MutualExclusion` | EF_VI/include/onload/eplock.h:47-220 | in every run of any mix of calls by any threads at most one thread holds the lock, and the lock bit is set iff one does |
| `Eplock.HolderSeesLocked` | EF_VI/include/onload/eplock.h:88-108 | the assertion in the holder's loops holds in every run |
| `Eplock.AcceptedIsSet` | EF_VI/include/onload/eplock.h:124-208 | when a call reports that a flag was left, the flag is set and some thread holds the lock |
| `Eplock.FlagKept` | EF_VI/include/onload/eplock.h:88-220 | over any stretch of a run without a clear of it, a flag stays set |
| `Eplock.NoWorkLost` | EF_VI/include/onload/eplock.h:111-220 | in every run, between a call that left a flag and an unlock that succeeded with the flag in its mask, a clear was handed that flag |
| `EplockAccess.AccessesRefine` | EF_VI/include/onload/eplock.h:47-220 | every interleaving of the single loads and swaps of all the calls does what the calls do one after the other, in the order in which they took effect |
| `EplockAccess.AccessesExclude` | EF_VI/include/onload/eplock.h:47-220 | after every load and swap of every interleaving at most one thread holds the lock, and the lock bit is set iff one does |
| `EplockAccess.HolderLoadsLocked` | EF_VI/include/onload/eplock.h:88-108 | whenever a holder's loop loads the word, the lock bit is set |
| `EplockAccess.NoWorkLostByAccesses` | EF_VI/include/onload/eplock.h:111-220 | no deferred work is lost in any interleaving of the single accesses |
| `EplockAccess.AloneEnds` | EF_VI/include/onload/eplock.h:47-220 | from any state a thread that is left alone ends its call within three accesses, and the call has taken effect unless it makes a single attempt |
| `EplockBits.CallBits` | EF_VI/include/onload/eplock.h:47-220 | for every call, word and bit: when the bit is set afterwards, and what the call answers, in terms of bits 29 and 30, the flags and the mask |
| `EplockBits.UnlockBits` | EF_VI/include/onload/eplock.h:213-220 | a successful unlock clears bits 29 and 30 and leaves every other bit |
| `EplockBits.LegalBits` | EF_VI/include/ci/internal/ip_shared_types.h:935-939 | flags passed in have none of the bits 28 to 30, but for bit 30 in a clear |
| `EplockBits.WakeExactly` | EF_VI/include/onload/eplock.h:110-220 | in every run bit 30 is set if and only if a waiter or flags passed in asked for it and no successful unlock or clear of it came since |
| `DlList.StackState.Init` | EF_VI/include/onload/oo_p_dllist.h:97-101 | the link becomes an empty list; nothing else changes |
| `DlList.StackState.Del` | EF_VI/include/onload/oo_p_dllist.h:107-112 | exactly this element leaves the list, wherever it is, and only the list's other links are written |
| `DlList.StackState.DelUnlinked` | EF_VI/include/onload/oo_p_dllist.h:107-112 | deleting a self-linked link changes nothing |
| `DlList.StackState.DelInit` | EF_VI/include/onload/oo_p_dllist.h:114-119 | the element leaves the list and becomes an empty list of its own |
| `DlList.StackState.Add` | EF_VI/include/onload/oo_p_dllist.h:121-137 | prepends, to an empty list too; links outside the list are unchanged |
| `DlList.StackState.AddTail` | EF_VI/include/onload/oo_p_dllist.h:139-144 | appends, to an empty list too; links outside the list are unchanged |
| `DlList.StackState.IsEmpty` | EF_VI/include/onload/oo_p_dllist.h:146-150 | true iff the list has no element |
| `DlList.StackState.SpliceFront` | EF_VI/include/onload/oo_p_dllist.h:179-202 | the whole source sequence comes first, in order; an empty source changes nothing |
| `DlList.StackState.SpliceTail` | EF_VI/include/onload/oo_p_dllist.h:179-212 | the whole source sequence comes last, in order; an empty source changes nothing |
| `DlList.StackState.ForEachSafe` | EF_VI/include/onload/oo_p_dllist.h:171-176 | a loop whose body may delete the link it is at visits every element once, in order; the list keeps exactly the others and the deleted links end up self-linked |
| `DlList.Unlink` | EF_VI/include/onload/oo_p_dllist.h:107-112 | the two stores of a deletion turn any ring into the ring without that link, also when its neighbours are the same link |
| `DlList.Splice` | EF_VI/include/onload/oo_p_dllist.h:121-130 | joining a chain of links between two neighbours of a ring, which may be one link, gives the ring with the chain in between |
| `DlList.LinkedFrame` | EF_VI/include/onload/oo_p_dllist.h:97-212 | a list that shares no link with what an operation touched is unchanged |
| `ConcurrentAdd.AddedIsReachable` | EF_VI/include/onload/oo_p_dllist.h:215-242 | in every interleaving each link whose add succeeded is, once per add, on the live chain, on the rest of a taken chain, or finished with, and these chains are what memory holds |
| `ConcurrentAdd.FailureRestores` | EF_VI/include/onload/oo_p_dllist.h:215-238 | when the add returns false the link has the fields it came with and is on no chain |
| `ConcurrentAdd.AdderFrame` | EF_VI/include/onload/oo_p_dllist.h:215-238 | up to a successful swap, and whenever it fails, the adder writes only the link's own fields |
| `ConcurrentAdd.FailsOnlyIfTaken` | EF_VI/include/onload/oo_p_dllist.h:232-238 | the add fails only if the list was taken between its two looks at the head |
| `ConcurrentAdd.UndisturbedIsAdd` | EF_VI/include/onload/oo_p_dllist.h:215-242 | without interference it is the plain add, backward links included |
| `BackLinks.StepWhole` | EF_VI/include/onload/oo_p_dllist.h:215-242 | every access of the adder and every step of a traverser keeps the live chain and all taken chains intact and disjoint, conserves the added links, and keeps the live list a doubly linked ring but for the one store a late add still owes |
| `BackLinks.LiveIsRing` | EF_VI/include/onload/oo_p_dllist.h:215-242 | in every interleaving, unless an add is between its swap and its last store, a live list that is not empty is a full doubly linked ring |
| `BackLinks.FinishedExactly` | EF_VI/include/onload/oo_p_dllist.h:232-241 | in every interleaving a link that a traverser finished with is on no list, and once that add is over, stays self-linked until it is added again if and only if the take and the finish did not both fall between the swap and the last store of the add that found it first |
| `BackLinks.SpoiledRun` | EF_VI/include/onload/oo_p_dllist.h:232-241 | a run, from any empty list and any two links, in which they did: the unused link's backward field is left at the head, so that deleting it would put it on the list |
| `BackLinks.HarmlessRun` | EF_VI/include/onload/oo_p_dllist.h:232-241 | a run in which only the take did, and the link stays self-linked |
| `RxRing.Resources.PktBufFree` | EF_VI/mc_client_efvi.cpp:29-34 | the buffer of the first outstanding event goes to the front of the acyclic free list; every buffer is still in exactly one place |
| `RxRing.Resources.PostOne` | EF_VI/mc_client_efvi.cpp:168-173 | the first free buffer, which is not on the ring, moves to the ring; the list popped is never empty |
| `RxRing.Resources.PostBatches` | EF_VI/mc_client_efvi.cpp:167-175 | the loop ends at the computed level, having taken that many buffers from the front of the free list |
| `RxRing.Resources.RefillRxRing` | EF_VI/mc_client_efvi.cpp:158-180 | with at least one batch free the level rises as far as `Refilled` says and true is returned, else nothing changes; all descriptors are submitted afterwards |
| `RxRing.Resources.ReceiveFillLevel` | EF_VI/include/etherfabric/ef_vi.h:1264-1268 | the wrapping 32-bit difference of the counters is the number of buffers on the ring |
| `RxRing.LevelIsHeld` | EF_VI/include/etherfabric/ef_vi.h:1264-1268 | the same for any counters however often they wrapped, below 2^31 descriptors |
| `RxRing.PushAll` | EF_VI/include/etherfabric/ef_vi.h:1307-1322 | a push after whole batches leaves no descriptor unsubmitted, across wrap-around |
| `RxRing.Resources.HandleEvent` | EF_VI/mc_client_efvi.cpp:136-155 | a receive or discard event frees exactly its buffer, any other event none |
| `RxRing.Resources.PollEvq` | EF_VI/mc_client_efvi.cpp:183-207 | every buffer reported goes from the ring to the free list, last one first, and no other moves |
| `RxRing.Resources.EventLoop` | EF_VI/mc_client_efvi.cpp:209-215 | for any number of rounds: the partition of the buffers holds, the ring stays below capacity and, with 29 or more buffers, is at least half full before every poll |
| `RxRing.Resources.FollowRun` | EF_VI/mc_client_efvi.cpp:158-215 | every run of levels that the refill and polls of at most a batch allow is one the event loop goes through with events the NIC may report |
| `RxRing.HalfEmpty` | EF_VI/mc_client_efvi.cpp:158-274 | for every number of buffers from 2 to 28, a run of the code from initialisation in which the ring is less than half full before a poll |
| `RxRing.Resources.constructor` | EF_VI/mc_client_efvi.cpp:217-274 | initialisation ends for every capacity with every buffer in one place, n mod 16 of them free when n >= 16 and all of them otherwise |
| `RxRing.Resources.FillRing` | EF_VI/mc_client_efvi.cpp:270-274 | the fill loop terminates for every number of buffers at that level |
| `RxRing.FillUpReaches` | EF_VI/mc_client_efvi.cpp:167-175 | a refill goes in whole batches and stops short of half only for lack of a batch |
| `RxRing.FillUpStops` | EF_VI/mc_client_efvi.cpp:174-175 | at every level on the way of a refill the ring was short of half and a batch was left, so it stops at the first level that will do |
| `RxRing.FillUpBounded` | EF_VI/mc_client_efvi.cpp:174-175 | a refill posts exactly one batch or stops less than a batch above half |
| `RxRing.RefillsExactly` | EF_VI/mc_client_efvi.cpp:163-165 | a refill posts something, in whole batches, exactly when a batch is free |
| `RxRing.PushLeaves` | EF_VI/include/etherfabric/ef_vi.h:1307-1322 | for any number of new descriptors a push leaves behind exactly the last ones that do not make up eight, across wrap-around |
| `RxRing.HalfFullExactly` | EF_VI/mc_client_efvi.cpp:158-215 | the ring is at least half full before every poll of every run iff n <= 1 or n >= 29 |
| `RxRing.RingSizes` | EF_VI/mc_client_efvi.cpp:227-274 | for a capacity of 2^k - 1, k >= 5, initialisation leaves no buffer free, and the half is kept iff k >= 6 |
| `FwdVersion.StepInvariant` | EF_VI/include/cplane/mib.h:485-492 | every word written, bump, check and word read keeps: the copy of the version's parity is the current data, and words read under an unmoved version are current |
| `FwdVersion.RunInvariant` | EF_VI/include/cplane/mib.h:485-492 | that invariant holds in every interleaving |
| `FwdVersion.FastReadIsCurrent` | EF_VI/include/cplane/cplane.h:248-269 | when the fast path returns 1, with fewer than 2^32 bumps since its first check, the copy is word for word one published version, current during the whole call |
| `FwdVersion.FastExactly` | EF_VI/include/cplane/cplane.h:248-269 | a reader that copied everything passes the second check, with fewer than 2^32 bumps since the first, exactly if there was none |
| `FwdVersion.TornAfterWrap` | EF_VI/include/cplane/mib.h:845-873 | the bound is exact: with 2^32 bumps there is an interleaving that returns a mixture never published |
| `OnloadHash.AddrXor` | EF_VI/include/onload/hash.h:31-42 | each bit is set iff an odd number of the address words has it |
| `OnloadHash.MixBits` | EF_VI/include/onload/hash.h:102-114 | the mixing is the exclusive or of the word and its shifts by 8, 16 and 24 |
| `OnloadHash.MixBijective` | EF_VI/include/onload/hash.h:102-114 | Lemma 2: the mixing is a bijection, with the inverse given |
| `OnloadHash.UpperHalfIndependent` | EF_VI/include/onload/hash.h:130-135 | Lemma 4: the upper half of the hash does not depend on the local port |
| `OnloadHash.PortRecovered` | EF_VI/include/onload/hash.h:116-163 | Propositions 3 and 5: the local port is computed back from the masked hash and the rest of the tuple |
| `OnloadHash.RecoveryExactly` | EF_VI/include/onload/hash.h:154-163 | local port recovery holds iff the mask covers the 16 low bits |
| `OnloadHash.EveryPartCounts` | EF_VI/include/onload/hash.h:84-93 | tuples that differ in one address, in the protocol or in their pair of ports only never share the full hash |
| `OnloadHash.SecondaryPorts` | EF_VI/include/onload/hash.h:165-173 | tuples that differ in their ports only share the secondary hash only if the remote ports differ in nothing but the lowest bit |
| `HashBits.Hash1Bits` | EF_VI/include/onload/hash.h:84-144 | every bit of the primary hash as the mask's bit and an exclusive or of bits of addresses, ports and protocol |
| `HashBits.Hash2Bits` | EF_VI/include/onload/hash.h:165-173 | every bit of the secondary hash likewise, the ports in the opposite halves and bit 0 set |
| `HashBits.CplaneHash2Bits` | EF_VI/include/onload/hash.h:186-200 | every bit of the control plane's secondary hash likewise, with the carries of its two sums |
| `OnloadHash.SecondaryHashesOdd` | EF_VI/include/onload/hash.h:165-200 | both secondary hashes are odd for every tuple |
| `OnloadHash.ProbeVisitsAll` | EF_VI/include/onload/hash.h:53-55 | with an odd step, the probes of a table of 2^k slots visit every slot exactly once in 2^k steps |
| `OnloadHash.WrapHarmless` | EF_VI/include/onload/hash.h:53-55 | computing the probe in wrapping unsigned arithmetic gives the same slots |
| `OnloadHash.TuplesProbeAll` | EF_VI/include/cplane/mib.h:965-967 | for every tuple, the filter table's probes reach every slot and the control plane's never repeat within the rehash limit |
| `Prefix.Pfx2Mask` | EF_VI/include/cplane/mib.h:409-422 | for every length up to 128 exactly the first bits in network order are set |
| `Prefix.ApplyBits` | EF_VI/include/cplane/mib.h:424-430 | applying a prefix keeps the first bits in network order and clears the others |
| `Prefix.MaskedEqBits` | EF_VI/include/ci/net/ipvx_sh.h:51-64 | masked equality holds iff the addresses agree on every bit of the mask |
| `Prefix.MatchExactly` | EF_VI/include/cplane/mib.h:432-438 | two addresses match iff they agree on the first bits in network order |
| `Prefix.ApplyTwice` | EF_VI/include/cplane/mib.h:424-430 | applying p and then q is applying the shorter |
| `Prefix.MatchByApply` | EF_VI/include/cplane/mib.h:424-438 | addresses match iff applying the prefix makes them equal, so a probe may use the masked key |
| `Prefix.MatchLaws` | EF_VI/include/cplane/mib.h:432-438 | matching is an equivalence and weakens as the prefix shrinks |
| `Prefix.NestedOrDisjoint` | EF_VI/include/cplane/mib.h:442-467 | two blocks are nested or disjoint, and which one is decided by a match at the shorter prefix |
| `Prefix.KeyMatchExactly` | EF_VI/include/cplane/mib.h:519-535 | a row handles a request if and only if bit 7 of its flags is set, source and destination agree on the row's first bits in network order, both interfaces are equal, and bits 2 to 4 of the type of service and bit 5 of the key flags agree |
| `Prefix.OwnKeyMatches` | EF_VI/include/cplane/mib.h:519-535 | a row handles a request for its own key if and only if it is occupied |
| `Prefix.SharedKeyExactly` | EF_VI/include/cplane/mib.h:519-535 | some request matches two rows iff both are occupied, their exact fields agree and both their source and their destination blocks are nested |
| `PrefixSet.Not192` | EF_VI/include/cplane/mib.h:1041-1047 | complement within 0..191 |
| `PrefixSet.And192` | EF_VI/include/cplane/mib.h:1049-1055 | intersection, also of a bitmap with itself |
| `PrefixSet.Or192` | EF_VI/include/cplane/mib.h:1057-1063 | union, also of a bitmap with itself |
| `PrefixSet.ShiftBit192` | EF_VI/include/cplane/mib.h:1065-1070 | the singleton set |
| `PrefixSet.Clz192` | EF_VI/include/cplane/mib.h:1072-1085 | the distance of the maximum from 191, and 191 for the empty set |
| `PrefixSet.LargestPrefix` | EF_VI/include/cplane/mib.h:1087-1095 | the maximum of a nonempty set, 0 for the empty one |
| `PrefixSet.LongestFirst` | EF_VI/include/cplane/mib.h:456-463 | taking the largest length and clearing it ends and lists every length once, longest first |
| `Bond.ClearLowest` | EF_VI/include/cplane/cplane.h:603-604 | m & (m - 1) is the mask without its lowest bit |
| `Bond.DecrementValue` | EF_VI/include/cplane/cplane.h:603-604 | the borrow-based decrement of the bits subtracts one from the number |
| `Bond.FirstIsLowest` | EF_VI/include/cplane/mib.h:134-138 | no bit below the one found is set |
| `Bond.PortsComplete` | EF_VI/include/cplane/cplane.h:603-604 | the list of ports holds exactly the ports of the mask |
| `Bond.PortsAscending` | EF_VI/include/cplane/cplane.h:603-604 | the list is strictly ascending |
| `Bond.ListPorts` | EF_VI/include/cplane/cplane.h:595-604 | the loop fills the table with exactly that list, within its 16 entries |
| `Bond.BondGet` | EF_VI/include/cplane/cplane.h:591-607 | for every flow and hash mode the port that the hash of `BondHash.HashIs` picks, a port of the mask, and the bad port iff the mask is zero |
| `BondHash.HashIs` | EF_VI/include/cplane/cplane.h:532-589 | for every number of ports, mode and packet the index is a 16-bit number modulo the number of ports, each bit of which is an exclusive or of bits of the hardware addresses, of the addresses in host order, and of 16777619 times the ports' difference, as the mode and the kind of packet say |
| `BondHash.IndexBits` | EF_VI/include/cplane/cplane.h:532-589 | with 2^j ports bit i of the index is that bit |
| `BondHash.PortIs` | EF_VI/include/cplane/cplane.h:591-607 | the port chosen is the one at that index among the ports of the mask in ascending order, and 255 for an empty mask |
| `Bond.BothDirections` | EF_VI/include/cplane/cplane.h:532-589 | swapping source and destination gives the same port in every mode |
| `Bond.EveryPortUsed` | EF_VI/include/cplane/cplane.h:532-607 | for every mask, mode and kind of packet, each port of the mask is chosen for some flow |
| `Bond.ParityDoesNotDecide` | EF_VI/include/cplane/cplane.h:549-569 | with two ports, and whatever the rest of the flow, source ports of either parity reach both ports |
| `Bond.GetHwports` | EF_VI/include/cplane/mib.h:943-956 | the result is exactly the ports of the mask whose rows are in use |
| `DelegatedSend.Sender.TcpUpdate` | EF_VI/include/onload/extensions.h:524-544 | byte by byte: the two length bytes are payload plus headers modulo 65536, bit 3 of the byte nine after the sequence number is as asked and its other bits are kept, and every other byte is kept |
| `DelegatedSend.Sender.TcpAdvance` | EF_VI/include/onload/extensions.h:557-571 | byte by byte: the four sequence bytes are the old number plus the bytes sent modulo 2^32, every other byte is kept, and the three windows shrink by the bytes sent |
| `TcpHeaders.FieldsInBytes` | EF_VI/include/onload/extensions.h:524-571 | which bytes and bits the length, the sequence number and PSH are |
| `TcpHeaders.FieldsUpdated` | EF_VI/include/onload/extensions.h:524-544 | what those bytes of an update mean for the fields |
| `TcpHeaders.FieldsAdvanced` | EF_VI/include/onload/extensions.h:557-571 | what those bytes of an advance mean for the fields |
| `DelegatedSend.Sender.Compose` | EF_VI/include/onload/extensions.h:422-429 | the packet composed for any size, with or without an update, carries the right part of the data, the right sequence number and the mark set last, and is otherwise as prepared |
| `DelegatedSend.Sender.SendOne` | EF_VI/include/onload/extensions.h:418-434 | one round that sends anything up to the windows and the segment size emits that packet and keeps windows, sequence number and headers in step |
| `DelegatedSend.Sender.SendChosen` | EF_VI/include/onload/extensions.h:414-438 | any loop that sends at most what the windows of the moment and the segment size allow, updating when it chooses: the packets are what its choices say, no window is ever negative, and nothing but length, PSH and sequence bytes changes |
| `DelegatedSend.Sender.SendAll` | EF_VI/include/onload/extensions.h:414-446 | the loop of the sample takes all it may in every round, never more in total than the smallest of the three windows and all of it unless the program gives up, and from prepared headers every packet is right |
| `SendScript.StreamIsData` | EF_VI/include/onload/extensions.h:414-438 | for any choice of sizes the payloads joined are a prefix of the data, without gap or repetition |
| `SendScript.Contiguous` | EF_VI/include/onload/extensions.h:557-571 | for any choice of sizes each sequence number is the one before plus what that packet carried, modulo 2^32 |
| `SendScript.WindowsLast` | EF_VI/include/onload/extensions.h:418-435 | however much each round takes, what is left of the windows shrinks and never goes below zero, so the total is at most the initial minimum |
| `SendScript.UpdateNeeded` | EF_VI/include/onload/extensions.h:327-337 | a packet sent without an update has the right length and flag if and only if the headers were already set for its size, modulo 65536, and for that flag |
| `SendScript.Reassembled` | EF_VI/include/onload/extensions.h:524-571 | from its headers alone every packet is put where the data had it, directly after the packet before, and its size is read right if and only if it was updated or the headers were set for that size |
| `SendScript.SampleRuleExactly` | EF_VI/include/onload/extensions.h:422-425 | by the sample's rule all packets have the right length, and PSH iff they use up the windows, if and only if every round takes all it may |
| `SendScript.SampleLengthsExactly` | EF_VI/include/onload/extensions.h:422-425 | by the sample's rule all lengths are right, for any sizes, if and only if no full packet but the last comes after a smaller one |
| `SendScript.StaleLength` | EF_VI/include/onload/extensions.h:422-425 | 500 bytes and then a full 1000 by that rule: the second packet goes out with length 540 and with PSH |
| `SendScript.PushEndsTransfer` | EF_VI/include/onload/extensions.h:327-337 | where PSH is right it is on the packet that completes the transfer and on no other |
| `TcpHeaders.NumberOfBytes` | EF_VI/include/onload/extensions.h:567-570 | reading back a number stored in network byte order gives the number |

## Left out

- Driver and socket calls, memory mapping and registration, printing, filter set-up and thread start-up: input and output only. `ef_eventq_poll`, `ef_vi_receive_init` and `ef_vi_receive_push` appear by their documented effect.
- Packet parsing, price clamping and quote printing, and the statistics counters of the receivers: each is settled by one branch.
- RxRing.Resources.EventqPoll: assumes that each receive or discard event names a different posted buffer, as the default flags give; the check for scattered packets in `poll_evq` is not modelled.
- RxRing.Resources.constructor: takes capacities of at least 15, below which the buffer count is negative.
- ThrRef.Counters.Get: the release handlers' own effects are not modelled, only that and when they run. The assertions of debug builds on overflow are not modelled.
- Eplock: the slow path of the lock and the one-flag forms of the holder's and the alerting call (`ef_eplock_holder_set_flag`, `ef_eplock_set_flag_if_locked`) have no method of their own; the slow path is in the machine by its documented effect, and for one bit the one-flag forms do what the many-flag forms do. The word's socket-list bits are changed by code that is not part of this model.
- Eplock.MutualExclusion: calls that only the holder may make are made by the holder, and flags passed in do not overlap the lock's own bits, as the source asserts.
- ConcurrentAdd.AddedIsReachable: traversers exchange the head's forward link for the head itself and re-initialise each link they pass; the traversing code is not part of this model.
- DlList.StackState.ForEachSafe: the loop body may delete only the link it is at, which is what the loop protects against.
- FwdVersion.FastReadIsCurrent: the writer is the protocol that the row's comment describes, since the server is not part of this model; the time stamps for stale rows and the slow path are left out.
- OnloadHash.TuplesProbeAll: the probe loops themselves are not part of this model; the sequence is the one the header defines. Ports and the interface index are 16 bits wide.
- PrefixSet.LongestFirst: follows the probe order that the table's comment describes; the searching code is not part of this model.
- PrefixSet.ShiftBit192: requires a shift below 192; the source would write outside the bitmap beyond that.
- Prefix: the IPv4-only masks (`cp_prefixlen2bitmask`) and the non-IPv6 build.
- Bond.BondGet: the product in the layer 3+4 hash overflows a signed integer in the source; the model wraps it, and only bits 8 to 23 of it are used. The assertion that exactly one mode is set is not needed and not required.
- DelegatedSend.Sender.SendAll: that the packets are right starts from headers as `onload_delegated_send_prepare` is documented to leave them (full size, no PSH). That function, `_complete` and `_cancel` are not part of this model.
- Linear lookups of the control plane under its version lock, packet queues, ring buffers, offset buffers and the packing of mmap identifiers: they would add only easier members.
- Memory-ordering barriers and the kernel-only variants.
