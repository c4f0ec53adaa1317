# Passive-replication key-value store: replication and failover core

A Dafny model of the two state machines at the heart of a passive-replication
key-value store:

- the **replica** (`ReplicaImpl`, module `Replicas`, class `Replica`): a
  string-to-string store, a primary/backup role, an ordered list of backups
  and a grow-only list of registry names found dead. A primary acknowledges a
  client put only after pushing the whole post-write store to every backup it
  can reach. Before each push round it rediscovers its backups from the
  registry. A backup is promoted once, one way, and then rediscovers its own
  backups;
- the **front end** (`KVServiceImpl`, module `FrontEnd`, class `KVService`):
  it holds a pointer to the current primary and a FIFO queue of backups. It
  sends client puts and gets to the primary. When the primary cannot be
  reached it promotes the queue's head, and it drops, for good, any head whose
  promotion fails. A periodic scan of the registry seeds newly joined replicas
  with the primary's state and appends them to the queue.

Module `Naming` holds the registry naming convention: `replica` followed by one
or more ASCII digits, matched against the whole name. Module `Net` holds the
world the two components observe.

## How the outside world is represented

Remote handles are identified by the name they are bound under in the
registry. The remote calls become deterministic functions of explicit inputs:

- `Network.registryUp`: whether the registry can be listed at all;
- `Network.listing`: the names the registry lists, in its order;
- the keys of `peers: map<string, Replica>`: the bound names. A lookup of any
  other name fails. The values are the replica objects behind the names, so a
  push really overwrites the peer's store;
- `Network.crashed`: bound names whose process is gone. Every call on them
  fails in transport: ping, promote, put, get, getState and push;
- `Network.pushFails`: names whose `pushFullState` fails although they
  answered ping, for example a peer lost between discovery and push.

A replica registers itself as "replica" followed by its id, so the model
assumes that a bound name and the replica object behind it agree:
`peers[n].MyName() == n`. The contracts do not depend on this. Without it, a
replica could find its own object, bound under another name, among its backups.

A Java `RemoteException`, or any exception caught with it, becomes a `false`,
`None` or `Unavailable` result, or the branch that handles it. Each method is
one atomic step, as the source's `synchronized` methods are.

## Model

| member | source | states |
|---|---|---|
| Naming.IsReplicaName | src/main/java/replica/ReplicaImpl.java:26 | the REPLICA_NAME pattern of both components (also frontend/KVServiceImpl.java line 27): the whole name is "replica" followed by one or more ASCII digits |
| Naming.ReplicaNamePattern | src/main/java/replica/ReplicaImpl.java:26 | the pattern accepts a name exactly when it is "replica" followed by a non-empty string of ASCII digits |
| Naming.NumericIdsMatch | src/main/java/replica/ReplicaImpl.java:150-161 | a replica's own name "replica"+id follows the convention exactly when its id is a non-empty digit string |
| Naming.NameOf | src/main/java/replica/ReplicaImpl.java:150 | the own name starts with the prefix "replica" and continues with the id, which can be read back from the name |
| Net.Network.Live | src/main/java/replica/ReplicaImpl.java:170-181 | lookup-and-ping succeeds only for bound names that have not crashed |
| Net.Network.Deliverable | src/main/java/replica/ReplicaImpl.java:68-74 | a push succeeds only on a live name whose push does not fail |
| Net.Keep | src/main/java/replica/ReplicaImpl.java:65-75 | the backups that survive the push round are exactly the listed ones that took the push, in their order, without duplicates |
| Net.RemoveFirst | src/main/java/frontend/KVServiceImpl.java:60 | List.remove(Object) removes one occurrence of the element, and the head when the element is the head |
| Replicas.Discovery | src/main/java/replica/ReplicaImpl.java:152-191 | one pass over the listing: a name that does not match, is the own name or is ignored is skipped; a live one is added to the result; one whose lookup or ping fails is appended to the ignored names unless already there |
| Replicas.DiscoverBackupsSpec | src/main/java/replica/ReplicaImpl.java:146-194 | the whole discovery: the pass over the listing when the registry can be listed, and no backups and no change to the ignored names when it cannot |
| Replicas.LiveCandidates | src/main/java/replica/ReplicaImpl.java:152-181 | reference filter: a name is kept exactly when it is listed, matches the pattern, is not the own name, is not ignored and answers |
| Replicas.DiscoveryIsFilter | src/main/java/replica/ReplicaImpl.java:150-190 | discovery returns exactly the live candidates in registry order; the ignored list only grows at its end, gains exactly the candidates whose lookup or ping failed, and never gets a duplicate |
| Replicas.DiscoveredBackupsQualify | src/main/java/replica/ReplicaImpl.java:152-181 | every discovered backup matches the pattern, is not the own name, was not ignored, is bound and answered ping |
| Replicas.Replica.constructor | src/main/java/replica/ReplicaImpl.java:31-40 | a replica starts with an empty store, its given role and backups, and no ignored names |
| Replicas.Replica.HandleClientPut | src/main/java/replica/ReplicaImpl.java:45-79 | a backup answers false and changes nothing. A primary writes the pair, leaves every other key alone and answers true. Its backups become the fresh discovery minus the failed pushes, in order. Every kept backup's store equals the primary's new store. No other peer's store changes |
| Replicas.Replica.PushToBackups | src/main/java/replica/ReplicaImpl.java:65-75 | the push loop keeps exactly the backups whose push succeeds, in order, removing the others in place. Each kept backup holds the snapshot and no other peer store changes |
| Replicas.ListTurn | src/main/java/replica/ReplicaImpl.java:64-73 | one iterator step keeps the visited prefix equal to the survivors among the originals visited so far: a backup that takes the push is kept and the iterator moves past it, a failed one is removed in place and the unvisited rest is untouched |
| Replicas.Replica.PushTurn | src/main/java/replica/ReplicaImpl.java:65-73 | one turn of the push loop keeps the survivors equal to the successfully pushed originals so far. This replica and every survivor hold the snapshot, and only replicas the round reached have a changed store. The unvisited part always shrinks |
| Replicas.Replica.TryPush | src/main/java/replica/ReplicaImpl.java:67-72 | a push succeeds exactly on a bound, live name whose push does not fail; then only that replica's store changes, and it becomes the snapshot |
| Replicas.Replica.HandleClientGet | src/main/java/replica/ReplicaImpl.java:81-87 | the answer is present exactly when the key is stored, and is then the stored value; nothing changes |
| Replicas.Replica.GetState | src/main/java/replica/ReplicaImpl.java:89-93 | the snapshot equals the store; nothing changes |
| Replicas.Replica.PushFullState | src/main/java/replica/ReplicaImpl.java:98-105 | the store becomes exactly the pushed state whatever it held, so a second push of it changes nothing; role, backups and ignored names are untouched |
| Replicas.Replica.PromoteToPrimary | src/main/java/replica/ReplicaImpl.java:107-128 | afterwards the replica is primary. A primary is left as it was. A backup's backups and ignored names become the discovery result. The store is never touched |
| Replicas.Replica.SetBackups | src/main/java/replica/ReplicaImpl.java:137-140 | the backup list becomes the given list |
| Replicas.Replica.DiscoverBackups | src/main/java/replica/ReplicaImpl.java:142-198 | the loop computes the discovery result and ignored list; an unlistable registry yields no backups and no change |
| FrontEnd.Failover | src/main/java/frontend/KVServiceImpl.java:81-122 | the retry loop ends with either no primary or a primary that answers |
| FrontEnd.FirstLive | src/main/java/frontend/KVServiceImpl.java:97-101 | reference definition of head-first order: the first queued backup that answers, with all before it dead |
| FrontEnd.FailoverPromotesFirstLiveBackup | src/main/java/frontend/KVServiceImpl.java:81-122 | a live primary serves and the queue is untouched. A dead one is replaced by the first live backup in queue order, and every backup ahead of it is gone for good. With none live, the pointer is cleared and the queue emptied. A missing primary stays missing |
| FrontEnd.UnavailableIffNoLiveReplica | src/main/java/frontend/KVServiceImpl.java:103-108 | a request ends with no primary exactly when there was none, or neither the primary nor any queued backup answers |
| FrontEnd.SeedStep | src/main/java/frontend/KVServiceImpl.java:253-311 | one listed name in the scan: skipped when it does not match or is ignored; ignored when its lookup fails; skipped when it is the primary or already queued; appended when it answers ping, the primary answers getState and the push succeeds; otherwise ignored |
| FrontEnd.Sweep | src/main/java/frontend/KVServiceImpl.java:252-313 | the scan applies the step to each listed name in registry order |
| FrontEnd.SweepAppends | src/main/java/frontend/KVServiceImpl.java:252-313 | the scan only appends. Each new backup matches the pattern, was not ignored, is not the primary, was not queued, answers, and took the seeding push from a primary that answered getState. Neither list gets duplicates, and the primary is never queued |
| FrontEnd.SweepSettles | src/main/java/frontend/KVServiceImpl.java:252-313 | after a scan every listed replica name is ignored, the primary, or queued |
| FrontEnd.SweepOfSettledIsIdentity | src/main/java/frontend/KVServiceImpl.java:253-284 | a scan over names that are all ignored, the primary or queued changes nothing |
| FrontEnd.ScanIsIdempotent | src/main/java/frontend/KVServiceImpl.java:241-318 | a second scan of an unchanged registry adds nothing to the queue or the ignored names |
| FrontEnd.ScanWithDeadPrimaryQueuesNothing | src/main/java/frontend/KVServiceImpl.java:295-311 | while the primary cannot answer getState, a scan queues nothing and marks every bound, unqueued replica name other than the primary as ignored |
| FrontEnd.KVService.constructor | src/main/java/frontend/KVServiceImpl.java:32-35 | the front end starts with the given primary and backup order and no ignored names |
| FrontEnd.KVService.FailoverToBackup | src/main/java/frontend/KVServiceImpl.java:45-64 | with no candidate, or when promotion fails, nothing changes. Otherwise the candidate is promoted: it becomes primary, and a former backup gets the fresh discovery as its backups and ignored names. It becomes the front end's primary and leaves the queue, and no other replica changes |
| FrontEnd.KVService.AfterPrimaryFailure | src/main/java/frontend/KVServiceImpl.java:91-120 | after a transport failure with an empty queue the pointer is cleared. Otherwise exactly the head leaves the queue, and the pointer either stays or becomes that head, which is then live and promoted as promoteToPrimary says. No replica other than a newly installed primary changes, and the loop's Failover outcome is unchanged |
| FrontEnd.KVService.Put | src/main/java/frontend/KVServiceImpl.java:66-142 | the pointer and queue end as Failover says. The reply is UNAVAILABLE exactly when no primary is left, and a missing primary involves no replica. Otherwise the reply is the serving replica's answer: true after a promotion, its own role otherwise. A write refused by a replica that is not primary changes no replica at all. A replica installed by failover is now primary. An acknowledged write is in that replica's store and in every backup it kept |
| FrontEnd.KVService.Get | src/main/java/frontend/KVServiceImpl.java:144-221 | the pointer and queue end as Failover says. The reply is UNAVAILABLE exactly when no primary is left. Otherwise found holds exactly when the serving replica (the first live one) stored the key, and the value is its stored value, or "" when not found. A replica installed by failover is promoted as promoteToPrimary says, and no other replica changes in any field |
| FrontEnd.KVService.DiscoverNewReplicas | src/main/java/frontend/KVServiceImpl.java:241-318 | with no primary, or an unlistable registry, nothing changes. Otherwise the queue and ignored names end as the scan says. The primary's store is left as it was, every appended backup holds it, and no store outside the appended backups changes |
| FrontEnd.KVService.HandleListedName | src/main/java/frontend/KVServiceImpl.java:252-313 | one listed name is handled as the scan step says. Only a newly appended replica's store changes, and it becomes the primary's state |

## Left out

- Transport and registry plumbing: RMI (`LocateRegistry`, `UnicastRemoteObject`, stub casts) and gRPC (`StreamObserver`, `Status`, protobuf builders). They are replaced by the explicit inputs above. A failed stub cast counts as a failed lookup.
- The exception attached as the cause of the UNAVAILABLE status (`lastRemoteEx`) is not modelled; only the status is.
- Concurrency: the `discoveryLoop` thread, `Thread.sleep(5000)`, the `synchronized` blocks and the `volatile` primary pointer. Each method is one atomic step. The race between seeding a backup and an in-flight write is therefore not represented.
- Crash state cannot change during an operation. A replica that answers ping answers a later promote, put or get in the same operation. Push failures after a successful ping are given by `pushFails`.
- Logging (`System.out`, `System.err`) is not modelled.
- `Objects.requireNonNull`: keys, values and ids are non-null strings by type.
- `ping()` always returns true in the source, so a failed ping is a transport failure (a crashed name). The branch that adds a name without checking for it first is reached only for a name just found absent. It is modelled together with the catch branch.
- The front end's primary handle is named by its registry name. If that name is not bound in `peers`, the primary counts as unreachable.
- `PrimaryAPI` and `ReplicaControl` are interfaces without behaviour. Their operations are modelled through the replica's implementations.
- FrontEnd.KVService.Put: the served replica's new backups and ignored names, and the stores of its backups, are stated only through the replica's own put contract. Its put rediscovers backups right after any promotion, so the promotion's discovery result is not stated separately. Fields of other replica objects are covered only by the frame.
