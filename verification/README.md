# Lycoris, verified

This project models the four parts of Lycoris whose correctness depends on whole
runs rather than on one function, and proves what each of them is for.

* **Membership.** Every node runs a SWIM failure detector over a map of registers,
  one per node, merged by the order (incarnation, state rank, heartbeat) with a
  field-wise maximum on ties. `Registers` holds the value type, `Memberships` the
  replicated map, `SwimSpec` the transitions of one detector as functions of its
  state, and `SwimInstance` the class whose methods carry the loops. The run
  results are in `SwimRuns`, `FailureDetection`, `ProbeLifecycle`, `ProbeFairness`,
  `SuspicionTimer`, `ClockIndependence` and `Announcements`; `Cluster` puts any number of detectors
  on a network that drops, duplicates, delays and reorders, with crashes, restarts
  and writes that may fail.
* **Anti-entropy.** `Merkle` is the reference tree (a recursive definition over a
  map from node id to register hash), `MerkleTrees` the flat-array build that skips
  empty subtrees, `RegisterStreams` what a register hash covers, `MerkleDiffs` and
  `MerkleSessions` the two-round diff, `DiffTheorems` its meaning, `WireReplies`
  the conversions on the wire and what happens to damaged replies,
  `Services` the daemon's membership service with its cached tree and persisted
  incarnation, and `Exchange` one complete exchange between two services.
* **Routing.** `Routing` is the link-state database and breadth-first search,
  `Forwarding` a router and the journey of an envelope through many of them, and
  `RouterRuns` what one router keeps over any sequence of operations.
* **Private files.** `PrivateFile` interleaves any number of publishers, one file
  operation at a time, each of which may fail.

Everything about trees is proved for any depth D and split S ≤ D; the daemon's
16 and 8 are one instance (`DiffTheorems.RunDaemonDiff`).

## How to read it

Operations that change state are methods whose postconditions give the complete
new state as a specification function of the old one (`S()` is the abstract state
of a detector or router, `V()` of a membership). The lemmas then say what those
functions achieve. The iteration order of hash maps is never fixed: where the code
iterates over one, the order is returned as a ghost value, and the lemmas hold for
every order (`SwimSpec.Choices`). The local time and the
outcome of each disk or file operation are parameters.

Hashes are abstract. `Merkle.Ideal` is the only assumption ever made about the tree
hashes: leaf, inner and empty hashes are injective and never coincide. It is a
hypothesis of the results that need it, not of the others, and
`Merkle.DigestsAreIdeal` exhibits functions that meet it. The hash of a register is
an arbitrary function of the byte stream the code feeds to it.

## What the code does that one might not expect

* A heal between two ticks does not restart a suspicion timer. The comment at
  crates/membership/src/swim.rs:341-343 says a node that recovers and is suspected
  again later gets a fresh timer; that holds exactly when a tick sees it healthy in
  between (`SuspicionTimer.FreshTimerExactly`,
  `SuspicionTimer.RecoveryBetweenTicksKeepsTimer`).
* Labels and annotations are hashed as one stream, so moving a whole label map to
  the annotations is invisible to anti-entropy
  (`Merkle.LabelsAndAnnotationsCollide`). Diff results are therefore stated over
  register hashes; `RegisterStreams.StreamsExactly` says exactly which registers
  hash alike, and `Exchange.ExchangeSharesFields` which fields two replicas share
  after an exchange.
* A departure newer than the held register turns even an Offline peer into Leaving;
  only at the held incarnation does Offline win, as the comment at
  crates/membership/src/swim.rs:302-305 has it (`Announcements.DepartureOfPeer`).
* A remote leaf bucket that lists an id twice makes the diff pull that id even when
  both entries match (`MerkleDiffs.RepeatedMatchIsPulled`);
  `MerkleDiffs.DiffLeafBuckets` is exact for such buckets too.
* The wire conversion turns incarnation 0 into 1. Whether an exchange converges in
  the presence of such a register is decided by `Exchange.ExchangeExactly`; no
  running daemon ever holds one (`Exchange.ReachablePositive`).
* `refute` adds one to the local incarnation without looking at the rumour's. That
  this is enough follows only from the distributed bound: nothing said about a node
  is ever above the highest incarnation the node ran at (`Cluster.PeakBound`, for
  every run, whatever reads and writes fail). A node at that peak is behind nothing
  (`Cluster.IncarnationBound`), and where a copy at the peak exists only such a node
  is (`Cluster.BoundExactly`).
* Incarnations can be lost. A failed write at boot, followed by a crash, makes the
  next boot tie with a register already served
  (`Cluster.FailedBootWriteReusesIncarnation`). An unreadable or corrupt counter
  counts as 0, so the node comes up at 1, behind copies of its own register, and
  then overwrites the counter (`Cluster.FailedReadForgets`).
  `Cluster.BootAboveExactly` says exactly which boots are above what was let out, in
  terms of that read and the latest write, and `Cluster.BootAtPeakExactly` which
  boots stand at their peak.
* Some register transitions can lower a key when called on their own: a heartbeat
  revives a Suspected register in place, and a leave turns an Offline one into
  Leaving. `Registers.TransitionsRaiseKey` says exactly when; no run of a detector ever does
  (`SwimRuns.LocalLifecycle`).

## Model

| member | source | states |
|---|---|---|
| Registers.TransitionsRaiseKey | crates/membership/src/register.rs:240-300 | which transitions keep the (incarnation, rank, heartbeat) key from falling, with the exact condition for those that may lower it |
| Registers.MergeAbove | crates/membership/src/register.rs:208-234 | a merge is above both registers in the information order (key, then address, labels, annotations and timestamp field by field) |
| Registers.MergeLeast | crates/membership/src/register.rs:208-234 | no register above both is below the merge, so the merge is their join |
| Registers.MergeSemilattice | crates/membership/src/register.rs:189-234 | merge is commutative, associative and idempotent, ties on the key included |
| Registers.BelowAntisymmetric | crates/membership/src/register.rs:189-234 | two registers carrying each other's information are the same register: the tie case loses no field |
| Order.MapLeAntisymmetric | crates/membership/src/register.rs:307-315 | the canonical comparison of label maps identifies only equal maps, so the tie-break is deterministic |
| Memberships.MergeAllIsJoin | crates/membership/src/membership.rs:47-64 | after merging any sequence of registers, each id holds the least upper bound of everything offered for it |
| Memberships.MergeOrderIrrelevant | crates/membership/src/membership.rs:47-64 | memberships that merged the same set of registers, in any order and multiplicity, are equal |
| Memberships.Membership.MergeRegister | crates/membership/src/membership.rs:47-57 | the in-place merge of one register is the join with what was held, and every call raises the version |
| Memberships.Membership.Merge | crates/membership/src/membership.rs:60-64 | merging a whole membership gives the same result for every iteration order of the other map |
| Memberships.Membership.Heartbeat | crates/membership/src/membership.rs:91-104 | a heartbeat raises the version only when it revives a suspected member; unknown ids change nothing and report false |
| Memberships.Membership.Suspect | crates/membership/src/membership.rs:109-119 | returns the incarnation exactly when a member moved from Active to Suspected, and then alone raises the version |
| Memberships.Membership.GoOffline | crates/membership/src/membership.rs:122-129 | the member becomes Offline with a raised version; unknown ids change nothing |
| Memberships.Membership.Leave | crates/membership/src/membership.rs:132-139 | the member becomes Leaving with a raised version, whatever its state; unknown ids change nothing |
| Memberships.Membership.Refute | crates/membership/src/membership.rs:142-149 | the member is Active one incarnation higher (saturating) with a raised version |
| SwimInstance.Swim.constructor | crates/membership/src/swim.rs:93-108 | a new detector holds exactly its own register and no bookkeeping |
| SwimInstance.Swim.OnMessage | crates/membership/src/swim.rs:121-146 | new state and actions for each of the five messages |
| SwimInstance.Swim.HandleAck | crates/membership/src/swim.rs:212-216 | an ack resolves only its own outstanding probe and clears the target's failure count; an unknown sequence changes nothing |
| SwimInstance.Swim.HandleSuspectState | crates/membership/src/swim.rs:218-247 | a suspicion about the local node is refuted or ignored; one about a peer is merged only if it names a known peer at a current or newer incarnation |
| SwimInstance.Swim.HandleAliveState | crates/membership/src/swim.rs:249-255 | registers about the local node are never merged; others are |
| SwimInstance.Swim.RefuteIfDominated | crates/membership/src/swim.rs:265-276 | refutes only a rumour that dominates an Active local register |
| SwimInstance.Swim.RefuteAndBroadcast | crates/membership/src/swim.rs:280-288 | raises the local incarnation and broadcasts the new register |
| SwimInstance.Swim.HandleLeaveState | crates/membership/src/swim.rs:290-309 | a departure is applied only to a known peer at a current incarnation, never to the local node |
| SwimInstance.Swim.MarkSuspected | crates/membership/src/swim.rs:380-401 | counts a missed probe; at the threshold suspects the peer, resets the count and broadcasts |
| SwimInstance.Swim.CheckTimeouts | crates/membership/src/swim.rs:311-327 | times out exactly the expired probes, in some order |
| SwimInstance.Swim.CheckSuspectTimeouts | crates/membership/src/swim.rs:329-378 | starts, keeps and drops suspicion timers and takes exactly the expired suspects offline |
| SwimInstance.Swim.StartTimers | crates/membership/src/swim.rs:345-361 | the timers of everybody suspected now, kept where running, and the expired ones |
| SwimInstance.VisitSuspects | crates/membership/src/swim.rs:352-361 | the loop over the suspects computes exactly those timers whatever order it visits them in |
| SwimInstance.Swim.GenerateProbes | crates/membership/src/swim.rs:164-197 | at most one ping per tick, to the best candidate |
| SwimInstance.ChooseProbe | crates/membership/src/swim.rs:174-190 | the loop over the active peers returns the first candidate with the largest gap |
| SwimInstance.Swim.SendPingTo | crates/membership/src/swim.rs:403-419 | records the probe under the next sequence number (wrapping) with its send time |
| SwimInstance.Swim.Tick | crates/membership/src/swim.rs:151-162 | heartbeat, probe timeouts, suspect timeouts and probing, in this order |
| SwimRuns.CheckSuspectsFrame | crates/membership/src/swim.rs:329-378 | a tick's verdicts change exactly the expired suspects, each to Offline, and nothing else in the membership |
| SwimRuns.CheckSuspectsActions | crates/membership/src/swim.rs:362-378 | and broadcast exactly those offline registers |
| SwimRuns.BestProbeIsOldest | crates/membership/src/swim.rs:164-190 | the probed peer is eligible and no eligible peer has waited longer, for every iteration order |
| SwimRuns.RefutesExactly | crates/membership/src/swim.rs:218-288 | a message moves the local incarnation if and only if the local register is Active and the message threatens it; then by exactly one, with exactly one broadcast of the new register |
| SwimRuns.StepLocal | crates/membership/src/swim.rs:121-419 | every step keeps the local register, leaves no outstanding probe to the local node, and lowers no member's key |
| SwimRuns.LocalLifecycle | crates/membership/src/swim.rs:121-419 | over every run: the local register stays Active until an explicit leave and then Leaving at a fixed incarnation; no probe targets the local node; no key ever falls |
| FailureDetection.BootMeetsConditions | crates/membership/src/swim.rs:93-108 | a freshly built detector meets the starting conditions of all run results |
| FailureDetection.RunProbes | crates/membership/src/swim.rs:164-216 | over every run each target has at most one outstanding probe and every stored failure count is below the threshold |
| FailureDetection.CountsAreMisses | crates/membership/src/swim.rs:380-401 | over every run the stored count is exactly the number of misses since the last answer, counted anew after each suspicion that was due |
| FailureDetection.SuspicionNeedsMisses | crates/membership/src/swim.rs:311-401 | a probe-driven suspicion of a target is broadcast only when its last `failure_threshold` resolved probes all timed out |
| FailureDetection.SuspectedExactly | crates/membership/src/swim.rs:311-401 | over every run: a tick broadcasts that a peer is suspected, at the incarnation held, and holds it Suspected after the probe timeouts, if and only if it completes a run of `failure_threshold` misses while the peer is Active; otherwise the probe timeouts leave its register alone |
| ProbeLifecycle.ProbeLife | crates/membership/src/swim.rs:212-216 | over every run with fewer than 2^64 pings, a probe is outstanding, for the peer pinged and since the time of the ping, exactly until the first acknowledgement of its number or tick at least `ping_timeout_ms` later, and never again |
| ProbeLifecycle.ResolvedExactly | crates/membership/src/swim.rs:311-327 | each probe is resolved at most once, by whichever of the two comes first |
| ProbeLifecycle.SentOnce | crates/membership/src/swim.rs:403-419 | no sequence number is sent twice |
| ProbeLifecycle.AnsweringPeersAreSafe | crates/membership/src/swim.rs:212-216 | a peer that acknowledges every ping in time is never suspected by probing |
| ProbeLifecycle.PingIsAnswered | crates/membership/src/swim.rs:121-130 | end to end: the peer pinged answers the sender with the number it was sent, and when the answer arrives that probe alone is gone and the peer's failures are forgotten |
| ProbeFairness.LastProbeFollowsRounds | crates/membership/src/swim.rs:403-419 | `last_probe_ms` is the time of the last ping actually sent to the peer |
| ProbeFairness.ProbeFairness | crates/membership/src/swim.rs:164-197 | with rising tick times, between two pings to one peer every other peer that waits at the second was pinged |
| SuspicionTimer.TimerIsLongestStretch | crates/membership/src/swim.rs:341-358 | a timer holds the start of the longest current stretch of ticks that all saw the peer suspected |
| SuspicionTimer.TimerFollowsHistory | crates/membership/src/swim.rs:341-358 | over every run, `suspected_since_ms` is that timer, whatever messages arrive between ticks |
| SuspicionTimer.OfflineExactlyAfterStretch | crates/membership/src/swim.rs:329-378 | a tick takes a peer offline if and only if every tick of a stretch at least `suspect_timeout_ms` long on the local clock saw it suspected |
| SuspicionTimer.FreshTimerExactly | crates/membership/src/swim.rs:341-350 | a peer has no running timer if and only if the last tick saw it healthy or no tick has seen it |
| SuspicionTimer.RecoveryBetweenTicksKeepsTimer | crates/membership/src/swim.rs:341-350 | a peer that recovers and is suspected again between two ticks keeps its old timer, against the comment there |
| ClockIndependence.ClocksDoNotMatter | crates/membership/src/swim.rs:121-401 | runs whose messages differ only in `updated_at_ms` have equal states, verdicts and actions up to that field |
| Announcements.SuspicionOfPeer | crates/membership/src/swim.rs:237-247 | what a suspicion of a peer does at every incarnation: nothing below the held one, otherwise the peer is lifted to it and turns Suspected only from Active |
| Announcements.DepartureOfPeer | crates/membership/src/swim.rs:290-309 | what a departure of a peer does at every incarnation: nothing below the held one, Leaving otherwise, except that Offline wins at the same one |
| Announcements.UnknownPeerIgnored | crates/membership/src/swim.rs:237-309 | suspicions and departures of unknown peers change nothing |
| Announcements.LeaveTakesEffect | crates/daemon/src/membership/service.rs:150-177 | announcing a departure takes effect where it is called and wherever the peer is known no better |
| Announcements.TickBeats | crates/membership/src/swim.rs:151-162 | every tick is one heartbeat of the local register, and nothing else happens to it |
| Announcements.AnnotationsExactly | crates/daemon/src/membership/service.rs:191-223 | new annotations are broadcast with the register carrying them and held afterwards, exactly unless the heartbeat counter is exhausted and the old ones win the tie |
| Announcements.ExtensionsExactly | crates/daemon/src/membership/service.rs:200-212 | an update replaces exactly the annotations under `ext.`, and repeating it changes nothing |
| Announcements.ProbesWheneverDue | crates/membership/src/swim.rs:164-197 | a tick pings somebody if and only if some live peer without an outstanding probe has gone unprobed for the interval, and then such a peer |
| Cluster.MoveKeeps | crates/membership/src/swim.rs:121-419 | every move of the cluster, failed writes and crashes included, keeps all registers and messages within the highest incarnation each node ever ran at |
| Cluster.PeakBound | crates/membership/src/swim.rs:218-309 | in every run, whatever writes fail and crashes lose, no register, suspicion or departure of a node anywhere carries an incarnation above the highest the node ever ran at (a leave of an unknown node is announced at 1) |
| Cluster.IncarnationBound | crates/membership/src/swim.rs:218-309 | over a lossy, duplicating, reordering network, no register, suspicion or departure of a running node at its peak carries an incarnation above its own |
| Cluster.RefutationDominates | crates/membership/src/register.rs:295-300 | each refutation of a node at its peak dominates every copy of its register then in existence, and leaves it at its peak |
| Cluster.BoundExactly | crates/membership/src/swim.rs:218-309 | where a copy at the peak exists, every copy is at most the own incarnation if and only if the node stands at its peak |
| Cluster.RefutationAboveExactly | crates/membership/src/register.rs:295-300 | where a copy at the peak exists, a refutation is above every copy if and only if the node stood at its peak |
| Cluster.EventMoves | crates/membership/src/swim.rs:121-288 | the local incarnation moves only on a message, by exactly one, and the new register is all that is broadcast then |
| Cluster.RefutationReaches | crates/membership/src/swim.rs:249-288 | end to end: a refutation is on the network at once, and a node that received it holds the refuter at that key or above for as long as it stays up, so no earlier suspicion survives there |
| Cluster.SavedStandsAtPeak | crates/daemon/src/membership/service.rs:84-99 | a node of which no crash and no boot lost an incarnation, in particular one that never crashed, always stands at its peak while up and has it on disk while down |
| Cluster.DiskIsWritten | crates/daemon/src/membership/service.rs:84-99 | over every run the persisted counter is at or above an incarnation exactly when the latest successful write was |
| Cluster.BootAboveExactly | crates/daemon/src/runtime.rs:227-242 | whatever reads and writes failed: a boot is above all the node ever ran at if and only if it reads the counter and the latest successful write was at the peak (or it never ran), and above every copy of its register if and only if that write was at or above each of them; the two coincide when a copy at the peak exists |
| Cluster.BootAtPeakExactly | crates/daemon/src/runtime.rs:227-242 | a boot stands at its peak if and only if the peak is at most 1 or it reads a counter whose latest write was at most one below the peak |
| Cluster.BootDominates | crates/daemon/src/runtime.rs:227-242 | when no crash and no boot of the node lost an incarnation, each boot comes up strictly above every incarnation of the node ever let out in a register, suspicion or departure |
| Cluster.WritesSave | crates/daemon/src/membership/service.rs:84-99 | when every write a node attempts succeeds and every boot reads the counter, nothing is lost, whatever the other nodes do |
| Cluster.FailedBootWriteReusesIncarnation | crates/daemon/src/runtime.rs:227-242 | one failed write at boot and a crash make the next boot come up at the incarnation of a register already served |
| Cluster.FailedReadForgets | crates/daemon/src/lib.rs:24-39 | one boot that cannot read the counter comes up at 1, behind a copy of its own register, and its write makes the loss permanent |
| Merkle.VolatileFieldsUnhashed | crates/membership/src/merkle.rs:193-228 | heartbeat and timestamp do not enter the register hash |
| Merkle.LabelsAndAnnotationsCollide | crates/membership/src/merkle.rs:199-228 | moving all labels to the annotations leaves the hash unchanged under every digest |
| RegisterStreams.StreamsExactly | crates/membership/src/merkle.rs:199-228 | for registers clear of the separators, the hashed streams are equal if and only if address, state, incarnation and the labels followed by the annotations are |
| RegisterStreams.SeparatorsCollide | crates/membership/src/merkle.rs:209-225 | a key that contains `=` can hash like another key: two different label maps with one stream |
| RegisterStreams.SameLabelsExactly | crates/membership/src/merkle.rs:209-225 | of two registers that hash alike, labels and annotations are equal if and only if both have the same number of labels |
| Merkle.EqualHashesExactly | crates/membership/src/merkle.rs:46-103 | with ideal hashes two nodes at any depth are equal if and only if all leaf buckets below them are |
| Merkle.EqualRootsExactly | crates/daemon/src/sync/antientropy.rs:152-156 | equal roots mean equal maps from id to register hash, and conversely |
| Merkle.EmptyHashIsEmptySubtree | crates/membership/src/merkle.rs:50-59 | the precomputed hash for a depth is that of any subtree without entries |
| MerkleTrees.BuildEmptyHashes | crates/membership/src/merkle.rs:50-59 | the loop that doubles the empty hash upwards yields the empty-subtree hash at every depth |
| MerkleTrees.PrefillEmpty | crates/membership/src/merkle.rs:61-68 | every slot of the flat array holds the empty hash of its depth |
| MerkleTrees.FillBuckets | crates/membership/src/merkle.rs:70-75 | every register lands once in its bucket, in whatever order the map yields them |
| MerkleTrees.HashLeaves | crates/membership/src/merkle.rs:77-83 | sorted buckets and their hashes are those of the reference tree |
| MerkleTrees.HashInner | crates/membership/src/merkle.rs:85-96 | hashing bottom-up and skipping empty pairs gives the reference hash at every node |
| MerkleTrees.HashOne | crates/membership/src/merkle.rs:85-96 | one node, skipped or hashed, carries its reference hash and no other node changes |
| MerkleTrees.FromMembership | crates/membership/src/merkle.rs:46-103 | the flat-array build equals the plain recursive tree at every depth and index, with no assumption on hashes |
| MerkleTrees.RepresentsUnique | crates/membership/src/merkle.rs:46-103 | a membership has exactly one tree, down to the unused slot of the array |
| MerkleTrees.FlatIndexInjective | crates/membership/src/merkle.rs:162-164 | no two nodes share an array slot |
| MerkleTrees.CollectIdsExactly | crates/membership/src/merkle.rs:141-155 | the recursive collection returns exactly the held ids whose bucket lies under the node |
| MerkleDiffs.DiffLeafBuckets | crates/membership/src/sync.rs:232-268 | for any remote bucket: an id is pulled if and only if some remote entry for it is missing locally or the bucket repeats it, and pushed if and only if the local entry is not the first the remote bucket has for it |
| MerkleDiffs.DistinctIsExact | crates/membership/src/sync.rs:232-268 | without repeated ids the two lists are exactly what each side lacks or holds differently |
| MerkleDiffs.RepeatedMatchIsPulled | crates/membership/src/sync.rs:258-265 | a bucket listing a matching entry twice: the id is pulled although nothing differs |
| MerkleTrees.SortEntries | crates/membership/src/sync.rs:235-236 | a sorted permutation that keeps the order of entries with one id |
| MerkleDiffs.AnswerRefsExactly | crates/membership/src/sync.rs:276-299 | a reply holds exactly the existing nodes asked for, each answered from the tree |
| MerkleSessions.TopRefs | crates/membership/src/sync.rs:104-112 | the first request asks for every node down to the split depth, once each |
| MerkleSessions.MerkleDiff.PlanLeafRefs | crates/membership/src/sync.rs:119-159 | subtrees are pruned, pushed whole or queued for inspection exactly by hash comparison, and the second request asks for the leaves below the queued ones |
| MerkleSessions.MerkleDiff.Finish | crates/membership/src/sync.rs:167-221 | for any reply both lists are sorted, duplicate-free and consist exactly of what the inspected leaves and whole-subtree pushes yield |
| DiffTheorems.RunDiff | crates/membership/src/sync.rs:104-299 | for any two memberships the two-round session returns exactly the sorted ids to pull and to push |
| DiffTheorems.RunDaemonDiff | crates/daemon/src/sync/antientropy.rs:210-234 | the same at depth 16 and split 8 |
| DiffTheorems.ExactDiffMirrors | crates/membership/src/sync.rs:167-221 | swapping the sides swaps the two lists |
| DiffTheorems.ConcludeFromTruthful | crates/membership/src/sync.rs:119-222 | with any parts of truthful replies missing, the push list still contains everything the peer lacks and the pull list nothing wrong |
| DiffTheorems.NothingToPushIsMissed | crates/membership/src/sync.rs:119-222 | an id the peer lacks or holds differently is always pushed |
| DiffTheorems.NothingWrongIsPulled | crates/membership/src/sync.rs:167-221 | an id on the pull list is held by the peer and absent or different locally |
| DiffTheorems.PullIsComplete | crates/membership/src/sync.rs:119-222 | with complete replies no id is missing from the pull list |
| DiffTheorems.PushIsExact | crates/membership/src/sync.rs:119-222 | with complete replies nothing is pushed that the peer already holds |
| WireReplies.DamagedRepliesStayTruthful | crates/daemon/src/sync/antientropy.rs:366-409 | dropping malformed results and entries turns a damaged truthful reply into a truthful one with parts missing |
| WireReplies.WireRoundTrip | crates/daemon/src/sync/antientropy.rs:297-331 | a whole request to an honest peer: refs, results and entries survive both conversions, and exactly what its tree answers arrives |
| Services.HeartbeatTracks | crates/membership/src/membership.rs:91-104 | a pure heartbeat changes no hashed field, and a reviving one raises the version |
| Services.StepTracks | crates/membership/src/membership.rs:47-149 | every step of a detector that changes a hashed field raises the version |
| Services.VersionDeterminesLeaves | crates/membership/src/membership.rs:47-149 | over every run, while the version reads the same the map of register hashes is the same |
| Services.MembershipService.constructor | crates/daemon/src/membership/service.rs:55-69 | the service starts with the tree of its first membership and the booted incarnation as last persisted |
| Services.MembershipService.MerkleTree | crates/daemon/src/membership/service.rs:73-79 | the cached tree is always the tree of the current membership |
| Services.MembershipService.ServedEqualsRebuilt | crates/daemon/src/membership/service.rs:73-79 | served and freshly rebuilt tree are equal in every reachable state |
| Services.MembershipService.MerkleRoot | crates/daemon/src/membership/service.rs:271-274 | the served root is the reference root of the current membership |
| Services.MembershipService.PersistLocalIncarnation | crates/daemon/src/membership/service.rs:84-99 | writes exactly when the local incarnation moved, and remembers it only if the write succeeded |
| Services.MembershipService.OnProbe | crates/daemon/src/membership/service.rs:301-307 | the detector's step followed by persisting, with the cache left to its version |
| Services.MembershipService.Register | crates/daemon/src/membership/service.rs:135-147 | a registration is an Alive rumour restamped with the local clock |
| Services.MembershipService.Tick | crates/daemon/src/membership/service.rs:310-316 | one tick followed by persisting |
| Services.MembershipService.Leave | crates/daemon/src/membership/service.rs:150-177 | leaving the local node or announcing a peer's departure, broadcast at the known incarnation or 1 |
| Services.MembershipService.UpdateLocalAnnotations | crates/daemon/src/membership/service.rs:191-223 | replaces exactly the annotations under the owned prefix and persists; nothing at all happens when the set is unchanged or the local node is missing |
| Services.MembershipService.SyncNodes | crates/daemon/src/membership/service.rs:244-268 | a batch is merged register by register, restamped, own register included, and the resulting incarnation persisted once at the end |
| Services.MembershipService.FetchRegisters | crates/daemon/src/membership/service.rs:291-298 | the registers held for the requested ids, in request order |
| Services.MembershipService.MerkleNodes | crates/daemon/src/membership/service.rs:285-288 | a request is answered from the tree of the current membership |
| Exchange.CrossMerge | crates/membership/src/register.rs:208-234 | merging in either direction gives registers equal up to the local timestamps |
| Exchange.ExchangeConverges | crates/daemon/src/sync/antientropy.rs:137-203 | after one exchange both replicas hold equal hashes for every third node whose incarnations were positive: registers equal but for the timestamp, or registers that hashed alike before and were left alone |
| Exchange.ExchangeSharesFields | crates/daemon/src/sync/antientropy.rs:137-203 | with a collision-free digest both replicas then share address, state, incarnation and the labels followed by the annotations, and both maps when they hold equally many labels |
| Exchange.ExchangeExactly | crates/daemon/src/sync/antientropy.rs:137-203 | for any incarnations: exactly which pairs of registers one exchange reconciles |
| Exchange.ReconcilesReadOff | crates/daemon/src/membership/convert.rs:15-25 | the same condition over rank, heartbeat, address and maps, for registers clear of the separators |
| Exchange.ReachablePositive | crates/daemon/src/membership/convert.rs:15-25 | in every run, daemons only hold positive incarnations |
| Exchange.WireRewritesExactlyZero | crates/daemon/src/membership/convert.rs:15-25 | the wire conversion changes a hashed field exactly for incarnation 0 |
| Exchange.CompareRoots | crates/daemon/src/sync/antientropy.rs:140-156 | the early exit is taken exactly when the two maps of register hashes are equal |
| Exchange.Request | crates/daemon/src/sync/antientropy.rs:236-254 | a request over the wire returns exactly what the current tree of the serving side answers |
| Exchange.DiffWithPeer | crates/daemon/src/sync/antientropy.rs:210-234 | the session between two services, both rounds over the wire, returns the exact difference of their memberships |
| Exchange.Transfer | crates/daemon/src/sync/antientropy.rs:158-197 | fetch, push and merge leave both sides with exactly what the diff told each to pull |
| Exchange.SyncWithPeer | crates/daemon/src/sync/antientropy.rs:137-203 | the complete exchange between two services ends in agreement on every third node that one exchange can reconcile, in shared fields on all of them when incarnations are positive, and with each participant having answered a threatening copy of itself, and only such |
| Exchange.BatchSettlesOwn | crates/daemon/src/membership/service.rs:244-268 | a merged batch raises the own register by one incarnation and broadcasts exactly that if and only if it contains a threatening copy of it; otherwise the own register is untouched and nothing is sent |
| Exchange.PullSettlesOwn | crates/daemon/src/sync/antientropy.rs:137-203 | the same for what one exchange brings a participant from the other side's copy of it |
| Exchange.ExchangeRefutes | crates/daemon/src/sync/antientropy.rs:137-203 | an Active node whose peer holds it in another state and not below its own register ends Active one incarnation higher and broadcasts that, which is above the old copy if and only if that was not ahead |
| Routing.LinkStateDb.Insert | crates/overlay/src/routing.rs:106-119 | a verified record replaces the one held exactly when its sequence is higher; held sequences never fall |
| Routing.NextHop | crates/overlay/src/routing.rs:132-162 | terminates for every graph and returns the first hop of a shortest path, or None exactly when there is none to take |
| Routing.ScanEdges | crates/overlay/src/routing.rs:143-159 | scanning a node's edges keeps the search invariants for arbitrary, unsorted and repeated edges, and stops at the destination |
| Routing.ShortPathsDiscovered | crates/overlay/src/routing.rs:132-162 | every node reachable within the open depth has been discovered at no more than its distance |
| Routing.WalkBack | crates/overlay/src/routing.rs:149-155 | the parent chain always leads back to the local node, and its last step is the first hop of a path of the recorded length |
| Forwarding.Router.Handle | crates/overlay/src/routing.rs:234-265 | the router's decision and complete new state, given what its routing table answers |
| Forwarding.Router.MarkSeen | crates/overlay/src/routing.rs:267-278 | a request is new exactly when it is not in the window, which keeps the newest requests |
| Forwarding.Router.CompleteForward | crates/overlay/src/routing.rs:229-231 | frees one slot, never below zero |
| Forwarding.HopIsCloser | crates/overlay/src/routing.rs:132-162 | following a next hop brings an envelope exactly one closer |
| Forwarding.HopBudgetBounds | crates/overlay/src/routing.rs:234-265 | with any databases and router states an envelope is forwarded at most its starting hop budget times and changes in nothing but the budget |
| Forwarding.NoRouterTwice | crates/overlay/src/routing.rs:234-265 | with equal databases no router is visited twice |
| Forwarding.DeliveredIffBudget | crates/overlay/src/routing.rs:234-265 | with equal databases and free slots an envelope is delivered, after exactly shortest-distance forwards, if and only if its hop budget is at least that distance; otherwise it is dropped for its hop limit |
| Forwarding.UnreachableIsDropped | crates/overlay/src/routing.rs:132-162 | an envelope for an unreachable destination is dropped by the first router |
| RouterRuns.DuplicateExactly | crates/overlay/src/routing.rs:267-278 | over any sequence of operations: a request handled before is refused as a duplicate, without any effect, if and only if fewer than `seen_capacity` requests were taken on since |
| RouterRuns.ActedOnTwice | crates/overlay/src/routing.rs:234-265 | whatever happens to the links, a router delivers or forwards a request twice only after `seen_capacity` others |
| RouterRuns.DecisionsExactly | crates/overlay/src/routing.rs:234-265 | for each outcome the envelopes and router states that lead to it, and which of them are remembered |
| RouterRuns.InflightIsOutstanding | crates/overlay/src/routing.rs:229-265 | over any sequence of operations the in-flight counter is the number of outstanding forwards and never passes its limit |
| PrivateFile.StepKeepsInv | crates/core/src/fs.rs:120-200 | every interleaved file operation, succeeding or failing, keeps each publisher's temporary file its own and the destination whole |
| PrivateFile.DestAlwaysWhole | crates/core/src/fs.rs:120-151 | the destination holds what it held at first or one publisher's complete bytes |
| PrivateFile.DestIsLastPublished | crates/core/src/fs.rs:139-174 | in every run of replacing and no-clobber publishers the destination holds the complete content of the process whose rename or link came last, and what it held at first if there was none |
| PrivateFile.CreatedIsThere | crates/core/src/fs.rs:139-174 | after a report of Created the destination is there for good, and holds the reporter's bytes as long as nobody else publishes |
| PrivateFile.PublishesAlone | crates/core/src/fs.rs:120-174 | a publisher whose operations all succeed publishes: a replacing one always, a no-clobber one if and only if the destination is absent |
| PrivateFile.GeneratesAlone | crates/overlay/src/identity.rs:99-124 | `load_or_generate` without failures returns the identity that is there, or creates its own |
| PrivateFile.DestNeverChanges | crates/core/src/fs.rs:153-174 | with no-clobber publishers the destination once present never changes |
| PrivateFile.AtMostOneCreated | crates/core/src/fs.rs:153-174 | at most one publisher or `load_or_generate` caller reports Created, and the destination holds its bytes |
| PrivateFile.SameIdentity | crates/overlay/src/identity.rs:99-124 | all successful `load_or_generate` callers, whenever they finish, return the same identity |
| PrivateFile.LeftoversExactly | crates/core/src/fs.rs:120-174 | when everybody is done, the directory holds beside the destination what it held at first and exactly the temporaries whose removal failed |

## Left out

- Cluster.BootDominates: speaks of departures only for a node that has run before, because a leave of an unknown node is announced at incarnation 1 whoever it is.
- ProbeLifecycle.ProbeLife: for runs with fewer than 2^64 pings, after which sequence numbers wrap and repeat.
- Cluster.MoveKeeps: a cluster delivers one message per move, while a fetched batch is persisted once after all of it.
- Cluster.PeakBound: registers originate from the daemons of the cluster; a client that registers a made-up one (crates/daemon/src/rpc/server.rs:66) is not modelled, because nothing bounds its incarnation.
- Cluster.DiskIsWritten: a write takes effect exactly when it reports success, and a corrupt counter is one that does not parse; one that parses to another number is not modelled.
- RegisterStreams.StreamsExactly: for registers whose fields contain the separators (NUL in an address, `=` in a key, newline in a value) the stream is not read back, because it can be split in several ways.
- Exchange.DiffWithPeer: for services whose tree depth is at most 255, because depths are bytes.
- SwimRuns.RefutesExactly: stated below the counter's limit, where refuting saturates.
- Registers and trees are values, as the source owns or clones them: updates in place and aliasing of a single register are not captured.
- The version counter is unbounded where the source has a u64 that would need 2^64 changes to wrap.
- The failure counter is unbounded in arithmetic, and proved to stay below the threshold.
- Sorting and removing duplicates are insertion sorts with the contract of the standard library's.
- `PrivateFile` is a state machine over single file operations rather than a sequential method; creating the parent directory, permissions and durability of unsynced data across a power loss are not modelled.
- Record signatures are a boolean with an equality of keys; the error for a key that cannot be decoded is not distinguished.
- Cryptographic internals (HMAC, blake3, key formats) are not part of this model.
- The exchange is between peers whose calls succeed and with no concurrent change; timeouts, fan-out, peer ranking and the retry of seeds decide only when it happens.
- The full-sync fallback, `list_nodes` and the snapshot `sync_nodes` returns: they carry only Active and Suspected members and decide nothing about convergence.
- Admission and the identity registry: their authorization rules are not part of this model.
- The gossip deduplication window: the same shape as the router's.
- The link actor, libp2p, gRPC, TLS, command line and configuration: plumbing.
- Extension reconciliation, selectors, resource versions, WASM and Lua engines, and the language-model providers: wrappers or short pure checks that would add only easy members.
