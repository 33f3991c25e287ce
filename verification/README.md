# KubeEdge delivery, ingress and mesh: a verified model

This project models the stateful cores of a KubeEdge fork with an Envoy ingress controller, and proves
what they keep over every run:

- **Reliable delivery from the cloud to edge nodes** (`Messages`, `WorkQueue`, `CloudHub`, `Delivery`,
  `SuccessPoints`, `HubEffects`, `Reconcile`, `MessageHandle`). The dispatcher, one write loop per node, edge
  acknowledgements and the recorded ObjectSync versions are a state machine over atomic steps; a run is
  any interleaving. A Go panic, a stopped node or a step that is not ready ends a run.
- **Envoy ingress** (`IngressStore`, `IngressEdge`, `IngressEffects`, `IngressController`, `IngressTranslate`, `Listeners`,
  `ResourceKeys`, `ClusterNames`, `Hashname`). Reference counting of generated resources, what every node of a
  node group holds of them behind a list queue that may drop messages, agreement of the route and cluster
  generators, listeners, bounded names and the keys made of them.
- **EdgeMesh** (`AddressTables`, `FakeAddresses`, `RecoveryRows`, `ServiceRuns`, `EdgeListener`, `ProxyLookup`, `Dns`). The fake address
  pool and its two tables, the way back from an address to a service, and the DNS codec.
- **Tunnel** (`TunnelMessage`, `TunnelSession`). Varint frames and demultiplexing onto connections.
- **Device profiles, pod phases, meta-server keys** (`DeviceProfile`, `DeviceEffects`, `PodPhase`, `MetaKey`).

Code that changes state in place appears twice: as a class or a loop, and as the function on values it is
proved equal to. Theorems over runs are about those functions. Fields named `log`, `acked`, `latest`,
`sent`, `edge` and `got` record history. Versions, hashes, clocks, JSON and the Kubernetes API are
parameters; an informer lookup is an arbitrary answer unless a lemma says it is up to date.

## Findings

Properties that do not hold of the code as it is are stated with the exact condition under which they do:

- An ObjectSync version can go back when the lister is stale (`StaleListerOverwrites`). No first message of a
  key can lower the record if and only if the lister returned a version at most one behind it
  (`SafeListerIff`, `RecordStandsIff`); one that is far behind, or silent, is not safe.
- The delete that reconciliation sends for a replaced object carries the replacement's UID, so its
  acknowledgement never removes the stale ObjectSync (`StaleSyncSurvivesItsDelete`) but that of the live
  replacement, whose key it also blocks (`StaleDeleteHitsReplacement`). The comment in
  `sendEvents` promises a delete event for objects gone from the cluster, but `manageObject` returns before
  that; `Manage` follows the code.
- A resource that a second ingress reuses is never deleted at the edge again (`SyncLeaksIff`, `StartLeaksIff`,
  `LeakIsForever`, `SharedResourceLeaks`), and the second ingress's node groups are ignored (`SecondGroupIsIgnored`).
- A Delete is sent once, and only to ready nodes of the group. A node that has nothing else about the resource
  under way keeps it for good if and only if at that moment it was not ready, not in the group, or sending to it
  failed, or the list write loop later drops the message (`DeleteLostIff`).
- A ready node can lack a settled resource of its group (`ReadyNodeCanLack`): exactly after missing one while
  turning ready, after joining the group while ready, or after the list write loop dropped the last message about
  it, which happens without an error and without a retry (`StepKeepsCurrentIff`).
- All TLS hosts of one port share the key of their https listener, so a sync keeps the filter chain of the last
  such host only (`ChainKeptIff`). The listener takes the secret of the first TLS entry for a host, the clusters
  and routes that of the last. Keys of different kinds of resources never collide (`KindsNeverCollide`).
- Route and cluster names agree if and only if both generators hash the same text for every routed service
  (`AgreementByNameIff`). They disagree for plain services under a TLS host (`PlainServiceUnderTlsHost`), and
  agree by coincidence for two secrets whose names run into the host (`DifferentSecretsOneName`). The routes of
  a path all name the cluster of the last service port because they are one shared object (`PathLoop`).
- A service named like the shortened form of another takes over its cluster name (`CutNameCanBeTaken`);
  `EqualNamesIff` says exactly which clusters share a name.
- Recovery can hand out an address a later row owns (`MixedRecoveryCanClash`); which databases are safe can be
  read off their rows (`RecoveryKeepsOnRows`).
- Port matching is textual, so port 80 behind port 8080 gets the protocol of 8080 (`Port80Behind8080`).
- DNS responses are unreadable when the query announced authority or additional records, and always
  when there is no IPv4 address (`ResponseReadsBack`, `RefusalNeverReadsBack`).
- Adding a device twice leaves two instances, of which an update reaches only the first (`UpdateReachesAllIff`).
- A device whose model reference changed leaves its old model in the profile (`DeleteKeepsIff`,
  `ChangedModelIsLeftBehind`).
- A runtime error, or the deletion of a failed pod, overwrites a final phase (`FinalStaysIff`).
- `Hashname` documents a "/" separator and a limit that may be reached; the code joins with "_" and
  keeps a join only when it is strictly shorter than the limit (`NamedBounds`).

## Model

| member | source | states |
|---|---|---|
| Messages.RoutedMessage | cloud/pkg/edgecontroller/messagelayer/util.go:15-83 | a message routed to a node is dispatched to that node, its key names kind, namespace and name, and the wire copy loses exactly the node prefix |
| Messages.PathIs | cloud/pkg/edgecontroller/messagelayer/util.go:15-27 | a routing path exists exactly with a node, a namespace and a kind, and splits into them and the name, if any |
| Messages.NodeIs | cloud/pkg/cloudhub/channelq/channelq.go:207-225 | the node of a message is the token after the first "node" that something follows |
| Messages.ParseUintIff | cloud/pkg/synccontroller/objectsync.go:134-152 | exactly the decimal numerals below 2^64 are versions |
| WorkQueue.Add | vendor/k8s.io/client-go/util/workqueue/queue.go:108-128 | adding keeps the queue equal to the dirty keys that are not being processed, each once |
| WorkQueue.Get | vendor/k8s.io/client-go/util/workqueue/queue.go:141-160 | the key taken was dirty, is now processed and no longer dirty |
| WorkQueue.Done | vendor/k8s.io/client-go/util/workqueue/queue.go:165-175 | a key that became dirty while processed is queued again, and the queue stays valid |
| Delivery.AdmittedFollows | cloud/pkg/cloudhub/channelq/channelq.go:89-135 | admission lets a message replace a stored one only if it is a delete, or both are non-deletes and its version is numerically strictly greater |
| Delivery.StepKeeps | cloud/pkg/cloudhub/handler/messagehandler.go:426-539 | every step of dispatcher, write loops, acks and timers keeps the invariant that ties store, queue, message in flight and sent messages of every node |
| Delivery.EveryRunWritesEpochs | cloud/pkg/cloudhub/handler/messagehandler.go:426-539 | in every run, for every node and key, the writes between two acknowledged Deletes are non-deletes with versions that never go back, then only deletes |
| Delivery.NothingAdmittedIsForgotten | cloud/pkg/cloudhub/handler/messagehandler.go:426-474 | in every reachable state a stored message is queued, delayed, in flight, meant to stay in the cloud, or was written without error |
| Delivery.AckedDeleteDiscardsOnlyDeletes | cloud/pkg/cloudhub/handler/messagehandler.go:533-540 | when the ack of a Delete is consumed, the entry it removes by key is a delete message, whatever arrived during the retries |
| Delivery.AckNeverDiscardsAnUpdate | cloud/pkg/cloudhub/handler/messagehandler.go:476-540 | in every reachable state consuming an ack leaves all stored non-delete messages and all other nodes alone |
| HubEffects.AdmittedOverStoredIff | cloud/pkg/cloudhub/channelq/channelq.go:89-135 | over a stored message exactly these are admitted: deletes and objects with a deletion timestamp, and numerically newer ones over a live message |
| HubEffects.AdmittedFirstIff | cloud/pkg/cloudhub/channelq/channelq.go:89-135 | under a new key exactly these are admitted: deletes and objects with a deletion timestamp, and versioned objects that the lister does not know as new as that |
| HubEffects.DispatchStores | cloud/pkg/cloudhub/channelq/channelq.go:129-134 | an admitted message is stored and queued; a discarded one changes nothing |
| HubEffects.CloudMessagesAreNeverWritten | cloud/pkg/cloudhub/common/model/types.go:110-137 | over every run no manager request that stays in the cloud is written to a node, stated on source, operation and path |
| HubEffects.FetchTakes | cloud/pkg/cloudhub/handler/messagehandler.go:430-453 | the head of the queue is taken, and held for writing exactly when it is stored and goes to the edge |
| HubEffects.SendWrites | cloud/pkg/cloudhub/handler/messagehandler.go:476-489 | the first write is logged, a new channel is registered, and a failed write is queued again after a delay |
| HubEffects.RetriesExactly | cloud/pkg/cloudhub/handler/messagehandler.go:491-509 | without an acknowledgement a message is written again exactly four times and then given up |
| HubEffects.DelayedKeyReturns | cloud/pkg/cloudhub/handler/messagehandler.go:460-470 | when its delay is over a key is up for writing again |
| HubEffects.StopIsFinal | cloud/pkg/cloudhub/handler/messagehandler.go:396-402 | a stopped node never changes again, over every later run |
| HubEffects.SaveStore | cloud/pkg/cloudhub/handler/messagehandler.go:533-540 | consuming an acknowledgement logs it, ends the pass, and removes from the store exactly an acknowledged delete |
| HubEffects.AckRecords | cloud/pkg/cloudhub/handler/messagehandler.go:541-574 | with a working API server the acknowledged version is recorded under namespace, node and UID, whether or not an ObjectSync existed, and nothing else changes |
| HubEffects.NewSyncIsNamed | cloud/pkg/cloudhub/handler/messagehandler.go:548-571 | a new ObjectSync carries the name its message was routed with, and the acknowledged version |
| HubEffects.AckWithErrors | cloud/pkg/cloudhub/handler/messagehandler.go:541-574 | an API error leaves the records alone, except a new ObjectSync without a version when only its status fails |
| HubEffects.AckedDeleteForgets | cloud/pkg/cloudhub/handler/messagehandler.go:533-540 | an acknowledged delete removes exactly its ObjectSync and its stored message |
| SuccessPoints.SyncNameDecodes | cloud/pkg/synccontroller/synccontroller.go:168-180 | a sync name gives back its node and UID exactly when the UID has no dot; node names may have dots |
| SuccessPoints.SyncNameInjective | cloud/pkg/synccontroller/synccontroller.go:168-170 | sync names of dot-free UIDs never collide |
| SuccessPoints.ChannelStepKeeps | cloud/pkg/cloudhub/handler/messagehandler.go:136-141 | every step keeps ack channels unshared: a closed channel was closed by an ack naming the waiter's own message |
| SuccessPoints.AckNeverClosesTwice | cloud/pkg/cloudhub/handler/messagehandler.go:136-141 | in every reachable state the channel an ack would close is still open, so closing never panics |
| SuccessPoints.RecordedVersionsWereAcknowledged | cloud/pkg/cloudhub/handler/messagehandler.go:520-576 | in every reachable state a non-empty recorded version was there at the start or is that of a message the edge acknowledged |
| SuccessPoints.RecordedVersionsAreTheNodesOwn | cloud/pkg/cloudhub/handler/messagehandler.go:520-576 | with dot-free UIDs the acknowledgement was consumed by the write loop of the node in the sync name |
| SuccessPoints.SafeListerIff | cloud/pkg/cloudhub/channelq/channelq.go:108-119 | no version admitted as a first message is below the record if and only if the lister returned a version that is at most one behind the record (or one no number exceeds) |
| SuccessPoints.FirstMessageKeepsIff | cloud/pkg/cloudhub/channelq/channelq.go:104-134 | dispatching the first non-delete message of a key keeps the record behind the store exactly when it is discarded, nothing is recorded, or the message is not older |
| SuccessPoints.RecordStandsIff | cloud/pkg/cloudhub/channelq/channelq.go:108-119 | for every object, record and lister answer: no version delivered as a first message leaves a lower record, exactly under that condition on the lister |
| SuccessPoints.AckNeverLowersVersion | cloud/pkg/cloudhub/handler/messagehandler.go:491-574 | for one object with one UID, over every run in which the lister meets that condition whenever a key is not stored, consuming the ack of a non-delete message never lowers the recorded version |
| SuccessPoints.FirstMessageOverwrites | cloud/pkg/cloudhub/channelq/channelq.go:108-134 | whatever version the lister lets through as a first message replaces the recorded one once delivered |
| SuccessPoints.FirstMessageRecords | cloud/pkg/cloudhub/handler/messagehandler.go:541-574 | delivering a first message records exactly its version, from every set of records |
| SuccessPoints.StaleListerOverwrites | cloud/pkg/cloudhub/channelq/channelq.go:108-119 | while the lister has not seen the ObjectSync, any version overwrites any recorded one |
| Reconcile.QuietMeansAcknowledged | cloud/pkg/synccontroller/objectsync.go:42-97 | over every run, when reconciliation sends nothing for a live object of the same UID, the record is that version or a newer one, and the node has acknowledged it or it was recorded at the start |
| Reconcile.UpdateIffNewer | cloud/pkg/synccontroller/objectsync.go:86-97 | an update is sent exactly when the cluster's version is strictly greater, and it carries that version |
| Reconcile.ManageIff | cloud/pkg/synccontroller/objectsync.go:36-113 | exactly when a pass sends, the whole message it sends, and when it panics |
| Reconcile.DeliveredIsSettled | cloud/pkg/synccontroller/objectsync.go:86-97 | after an object is delivered, reconciliation is silent about that version and sends an update for every greater one |
| Reconcile.SentToItsNode | cloud/pkg/synccontroller/objectsync.go:42-113 | whatever is sent reaches the node encoded in the sync name, under the object's own key |
| Reconcile.UpdateAdmittedIff | cloud/pkg/synccontroller/objectsync.go:91-97 | with the ObjectSync in the lister, reconciliation's update is admitted exactly when the node stores nothing under its key or a strictly older non-delete |
| Reconcile.StaleSyncSurvivesItsDelete | cloud/pkg/synccontroller/objectsync.go:49-84 | acknowledging the delete sent for a replaced object never removes or changes the ObjectSync it was sent for, and the next pass sends the same delete again |
| Reconcile.StaleDeleteHitsReplacement | cloud/pkg/synccontroller/objectsync.go:49-113 | that delete has the key of the live replacement, blocks its updates while stored, and its acknowledgement removes exactly the replacement's ObjectSync |
| MessageHandle.Handle.AddMessageToQueue | cloud/pkg/cloudhub/channelq/channelq.go:89-135 | the branching original performs exactly the dispatch step, and panics exactly when the step is not possible |
| MessageHandle.Handle.HandleResponse | cloud/pkg/cloudhub/handler/messagehandler.go:136-141 | performs exactly the ack step |
| MessageHandle.Handle.TakeNext | cloud/pkg/cloudhub/handler/messagehandler.go:430-453 | performs exactly the fetch step |
| MessageHandle.Handle.BeginSend | cloud/pkg/cloudhub/handler/messagehandler.go:476-489 | performs exactly the first-send step, with its error path |
| MessageHandle.Handle.SaveSuccessPoint | cloud/pkg/cloudhub/handler/messagehandler.go:520-588 | performs exactly the save step for every answer of the API server |
| MessageHandle.Handle.RetryTimer | cloud/pkg/cloudhub/handler/messagehandler.go:498-507 | performs exactly the timer step, giving up after the fourth retry |
| MessageHandle.Handle.Await | cloud/pkg/cloudhub/handler/messagehandler.go:491-509 | the retry loop, with any actions of the dispatcher, other nodes and edges between its signals, is a run of the state machine with at most four further writes |
| MessageHandle.Handle.MessageWriteLoop | cloud/pkg/cloudhub/handler/messagehandler.go:426-509 | the whole write loop of a node, interleaved with everything else in the hub, refines a run of the state machine and keeps its invariant |
| IngressStore.StepKeeps | cloud/pkg/envoyingresscontroller/envoyingresscontroller.go:1767-2026 | start-up, sync, deletion, dispatch and node events each keep store, name index, queue and latest syncs consistent |
| IngressStore.NoLiveResourceIsDeleted | cloud/pkg/envoyingresscontroller/envoyingresscontroller.go:1767-1822 | in every run a Delete is dispatched only for a key that no live ingress's latest sync generated and no index holds |
| IngressStore.ReachableConsistent | cloud/pkg/envoyingresscontroller/envoyingresscontroller.go:1843-1968 | a key is in at most one index, an indexed key is stored with a reference (the not-found branches are dead), unreferenced resources wait in the queue, and what the last sync of a live ingress generated is stored with its reference |
| IngressEffects.SyncDropsStale | cloud/pkg/envoyingresscontroller/envoyingresscontroller.go:1942-1965 | what an edited ingress no longer generates loses its reference; without others it is queued and leaves the index, otherwise it stays indexed |
| IngressEffects.StaleIsDeleted | cloud/pkg/envoyingresscontroller/envoyingresscontroller.go:1942-1965 | its next dispatch is then a Delete to exactly the ready members of its groups |
| IngressEffects.SyncAddsGenerated | cloud/pkg/envoyingresscontroller/envoyingresscontroller.go:1992-2023 | what a sync generates has the reference beside those it had, and is queued |
| IngressEffects.SyncStoresLast | cloud/pkg/envoyingresscontroller/envoyingresscontroller.go:1992-2023 | version and body stored are those of the last resource generated under the key |
| IngressEffects.NewGroups | cloud/pkg/envoyingresscontroller/envoyingresscontroller.go:2006-2011 | a new resource has the node groups of the first that generates it |
| IngressEffects.SyncLeavesOthers | cloud/pkg/envoyingresscontroller/envoyingresscontroller.go:1911-2026 | resources neither indexed nor generated, and the indexes of other ingresses, are untouched |
| IngressEffects.DeleteDrops | cloud/pkg/envoyingresscontroller/envoyingresscontroller.go:1839-1865 | a deleted ingress loses its index and exactly the references in it |
| IngressEffects.StartAdds | cloud/pkg/envoyingresscontroller/envoyingresscontroller.go:2161-2190 | start-up adds the reference to what is generated, queues what is new, and indexes exactly that |
| IngressEffects.DispatchSends | cloud/pkg/envoyingresscontroller/envoyingresscontroller.go:1767-1822 | a dispatch is an Insert while someone refers to the resource and otherwise a Delete, to the ready members of its groups, and is retried exactly when a send failed |
| IngressEffects.NodeEvents | cloud/pkg/envoyingresscontroller/envoyingresscontroller.go:570-635 | node events change readiness, groups and what a node turning ready is sent, and nothing else |
| IngressEdge.DrainedHoldsExpected | cloud/pkg/cloudhub/handler/messagehandler.go:376-424 | when everything in a node's list queue arrives, the node holds exactly what the last message about each resource says |
| IngressEdge.StepKeepsCurrentIff | cloud/pkg/envoyingresscontroller/envoyingresscontroller.go:570-635 | a step leaves every ready node of a resource's groups holding its stored version, or with it under way, unless the resource waits, exactly when no labelled node turning ready misses such a resource, no ready node joins a group without it, and no dropped message was the last one a due node needed |
| IngressEdge.RunKeepsCurrent | cloud/pkg/envoyingresscontroller/envoyingresscontroller.go:1767-1822 | over every run of such steps a settled resource is current at every ready node of its groups |
| IngressEdge.DeleteLostIff | cloud/pkg/envoyingresscontroller/envoyingresscontroller.go:1779-1821 | after the dispatch of an orphan and any later run that does not generate it, a node holds it if and only if earlier messages leave it there and the Delete was not queued for the node (not ready, not in the groups, or its send failed), was dropped, or has not arrived yet |
| IngressEdge.SoleOwnerIsCleanedUp | cloud/pkg/envoyingresscontroller/envoyingresscontroller.go:1843-1864 | deleting the only referrer queues an indexed resource; its dispatch removes it from the store and sends a Delete to exactly the ready nodes of its groups; over every later run a node loses the resource exactly when that message was queued for it and arrives |
| IngressEdge.SecondGroupIsIgnored | cloud/pkg/envoyingresscontroller/envoyingresscontroller.go:2011-2023 | a sync never changes the node groups of a stored resource, whatever groups the ingress names |
| IngressEdge.ReadyNodeCanLack | cloud/pkg/cloudhub/handler/messagehandler.go:406-419 | a run of three steps after which a ready node of the group lacks a resource for which nothing is pending |
| IngressStore.SyncLeaksIff | cloud/pkg/envoyingresscontroller/envoyingresscontroller.go:1985-2024 | a sync leaves a reference outside the index exactly when the resource was already stored and not in that ingress's index |
| IngressStore.StartLeaksIff | cloud/pkg/envoyingresscontroller/envoyingresscontroller.go:2161-2190 | start-up leaves one exactly when the resource was already stored and is generated or was already referred to, because it resets the index |
| IngressStore.LeakIsForever | cloud/pkg/envoyingresscontroller/envoyingresscontroller.go:1824-2026 | such a reference survives every later run and no Delete for that resource is ever dispatched again |
| IngressStore.SharedResourceLeaks | cloud/pkg/envoyingresscontroller/envoyingresscontroller.go:2011-2023 | two ingresses that generate one resource reach such a state from the start, and no later run takes the reference back |
| IngressController.EnvoyIngressController.InitiateIngress | cloud/pkg/envoyingresscontroller/envoyingresscontroller.go:2119-2193 | the loop performs exactly the start-up step |
| IngressController.EnvoyIngressController.DropStaleResources | cloud/pkg/envoyingresscontroller/envoyingresscontroller.go:1911-1969 | the nested loops drop exactly the stale references, in whatever order the map is visited |
| IngressController.EnvoyIngressController.SyncEnvoyIngress | cloud/pkg/envoyingresscontroller/envoyingresscontroller.go:1911-2026 | the two phases perform exactly the sync step |
| IngressController.EnvoyIngressController.RemoveEnvoyIngress | cloud/pkg/envoyingresscontroller/envoyingresscontroller.go:1839-1865 | the loop performs exactly the deletion step |
| IngressController.EnvoyIngressController.NodesToSend | cloud/pkg/envoyingresscontroller/envoyingresscontroller.go:1802-1811 | the nested loops over groups and their node lists collect exactly the ready members |
| IngressController.EnvoyIngressController.SyncEnvoyResource | cloud/pkg/envoyingresscontroller/envoyingresscontroller.go:1767-1822 | the branches and the sending loop perform exactly the dispatch step, and report an error exactly when the key is missing or some send failed |
| IngressController.EnvoyIngressController.NodeTurnsReady | cloud/pkg/envoyingresscontroller/envoyingresscontroller.go:2071-2088 | performs exactly the node-ready step, sending every stored resource without an error once, and nothing for a node without the label |
| IngressController.EnvoyIngressController.ListWritePass | cloud/pkg/cloudhub/handler/messagehandler.go:376-424 | performs exactly the delivery step: the message arrives when there is a connection and the write succeeds, and is dropped otherwise |
| IngressTranslate.AgreementByNameIff | cloud/pkg/envoyingresscontroller/envoyingresscontroller.go:1317-1616 | unless digests collide or a service mimics a cut name, every cluster name in a route is the name of a generated cluster if and only if for each routed service secret and host of the rule and of the service's last rule run together to the same text |
| IngressTranslate.DifferentSecretsOneName | cloud/pkg/envoyingresscontroller/contour.go:452-455 | two secrets and hosts that concatenate to one text give the same name under all digests, although the validations differ |
| IngressTranslate.UsualIngressAgrees | cloud/pkg/envoyingresscontroller/envoyingresscontroller.go:1317-1616 | routes name only generated clusters when every service has no TLS-covered host, or speaks TLS under a single host |
| IngressTranslate.PlainServiceUnderTlsHost | cloud/pkg/envoyingresscontroller/envoyingresscontroller.go:1405-1420 | unless digests collide or a service mimics a cut name, a plain service under a TLS host is routed to a name that no generated cluster has |
| IngressTranslate.RouteIsRouted | cloud/pkg/envoyingresscontroller/envoyingresscontroller.go:1514-1589 | every route names the last port of a service some rule sends to |
| ClusterNames.NameShape | cloud/pkg/envoyingresscontroller/contour.go:434-463 | a cluster name is its parts with first the service and then the namespace cut to 15 characters; port and digest are never cut and the name always fits |
| ClusterNames.EqualNamesIff | cloud/pkg/envoyingresscontroller/contour.go:434-463 | under all digests two cluster names are equal if and only if ports, settings digests, and the services and namespaces as shown (in full or cut) are equal |
| ClusterNames.DistinctNames | cloud/pkg/envoyingresscontroller/contour.go:434-463 | hence names of any length tell service, port and settings digest apart unless digest marks collide or a service is called like the cut form of the other |
| ResourceKeys.KindsNeverCollide | cloud/pkg/envoyingresscontroller/envoyingresscontroller.go:2090-2100 | keys of secrets, endpoints, clusters, routes, http and https listeners are equal only within one kind and one namespace, whatever is cut |
| ResourceKeys.ListenerKeyIff | cloud/pkg/envoyingresscontroller/envoyingresscontroller.go:1686-1744 | listeners of a namespace share a key exactly when they are of one kind and port |
| Listeners.FindSecret | cloud/pkg/envoyingresscontroller/envoyingresscontroller.go:1641-1651 | the labelled loop finds the secret of the first TLS entry that lists the host |
| Listeners.GetListeners | cloud/pkg/envoyingresscontroller/envoyingresscontroller.go:1638-1758 | the nested loops produce the specified listeners, in order |
| Listeners.StoredChain | cloud/pkg/envoyingresscontroller/envoyingresscontroller.go:1744-1756 | after a sync the https listener of a port serves the host of the last TLS rule with that port |
| Listeners.ChainKeptIff | cloud/pkg/envoyingresscontroller/envoyingresscontroller.go:1744-1756 | the filter chain of a TLS rule on a port is the stored one if and only if the last TLS rule with that port is for the same host |
| Listeners.HttpIff | cloud/pkg/envoyingresscontroller/envoyingresscontroller.go:1681-1698 | there is an http listener for exactly the ports of the paths |
| Listeners.HttpIsStored | cloud/pkg/envoyingresscontroller/envoyingresscontroller.go:1681-1698 | after a sync every path with a port has its http listener stored |
| Listeners.SecretForIff | cloud/pkg/envoyingresscontroller/envoyingresscontroller.go:1641-1735 | a rule has TLS exactly when the first TLS entry that lists its host names an existing secret |
| ClusterNames.ShortNamesAreDistinct | cloud/pkg/envoyingresscontroller/contour.go:434-463 | below the limit that needs no further condition |
| ClusterNames.CutNameCanBeTaken | cloud/pkg/envoyingresscontroller/contour.go:171-205 | under all digests a service called like the cut form of a long name gets the same cluster name |
| ClusterNames.HealthCheckTells | cloud/pkg/envoyingresscontroller/contour.go:437-450 | clusters of one validation have equal settings exactly when their health checks are equal |
| ResourceKeys.ShortNamesSpell | cloud/pkg/envoyingresscontroller/contour.go:171-179 | a name of any kind that fits spells its parts in the source's order |
| IngressTranslate.UpstreamOf | cloud/pkg/envoyingresscontroller/envoyingresscontroller.go:1375-1419 | the loops settle on the last rule and the last TLS entry for a service |
| IngressTranslate.ClustersIff | cloud/pkg/envoyingresscontroller/envoyingresscontroller.go:1080-1122 | exactly one cluster per port of each service that a rule or the default backend names, with the validation of its last host for tls and h2 |
| IngressTranslate.CoveredIff | cloud/pkg/envoyingresscontroller/envoyingresscontroller.go:1391-1405 | a host has a validation exactly when the last TLS entry that lists it names an existing secret |
| IngressTranslate.LastHostIs | cloud/pkg/envoyingresscontroller/envoyingresscontroller.go:1379-1389 | the host of a service is that of the last rule that routes to it |
| IngressTranslate.GetClusters | cloud/pkg/envoyingresscontroller/envoyingresscontroller.go:1336-1472 | the nested loops produce the specified clusters, in order |
| IngressTranslate.HostSecrets | cloud/pkg/envoyingresscontroller/envoyingresscontroller.go:1504-1512 | the host table holds for each listed host the secret of the last entry |
| IngressTranslate.PathLoop | cloud/pkg/envoyingresscontroller/envoyingresscontroller.go:1552-1588 | the routes of a path are one object that ends up naming the last port's cluster |
| IngressTranslate.GetRoutes | cloud/pkg/envoyingresscontroller/envoyingresscontroller.go:1504-1599 | the nested loops produce the specified routes, in order |
| Hashname.Truncate | cloud/pkg/envoyingresscontroller/contour.go:195-205 | cutting yields the text itself when it fits and exactly the limit otherwise |
| Hashname.Shorten | cloud/pkg/envoyingresscontroller/contour.go:171-191 | the result has as few parts cut, from the end, as needed to get below the limit, or is a prefix of the digest when no cutting is enough |
| Hashname.NamedBounds | cloud/pkg/envoyingresscontroller/contour.go:165-191 | names never exceed the limit, and a shorter join is returned unchanged |
| Hashname.SinglePart | cloud/pkg/envoyingresscontroller/contour.go:171-191 | a single part is kept whole or replaced by the digest, never cut |
| Hashname.NamedIffNameOf | cloud/pkg/envoyingresscontroller/contour.go:171-191 | the promise determines the name |
| AddressTables.ReserveKeepsIff | edgemesh/pkg/listener/listener.go:100-108 | restoring a stored address keeps the tables inverse exactly when the address is not in use |
| FakeAddresses.AddressInjective | edgemesh/pkg/listener/listener.go:67-72 | different pool numbers give different addresses |
| FakeAddresses.RunKeeps | edgemesh/pkg/listener/listener.go:367-428 | every sequence of add, update and delete keeps the address table injective, the port table keyed by its range, and the free list duplicate-free and apart from used addresses |
| FakeAddresses.RecoveryKeepsIff | edgemesh/pkg/listener/listener.go:110-140 | recovery leaves consistent tables if and only if no row claims an address already in use when its turn comes |
| RecoveryRows.RecoveryMatches | edgemesh/pkg/listener/listener.go:84-140 | after any rows, free list, pool counter and used addresses are what the rows alone say: each row without an address takes the next pool number that no earlier row stores |
| RecoveryRows.RecoveryKeepsOnRows | edgemesh/pkg/listener/listener.go:110-140 | recovery leaves consistent tables if and only if no row stores an address that an earlier row stores or is given, a condition on the rows alone |
| FakeAddresses.RecoveredRunKeeps | edgemesh/pkg/listener/listener.go:51-140 | from an empty database, or one with a distinct address for every service, every later run stays consistent |
| FakeAddresses.MixedRecoveryCanClash | edgemesh/pkg/listener/listener.go:129-137 | a service without an address listed before the owner of the first pool address takes it |
| FakeAddresses.EveryRunIsExact | edgemesh/pkg/listener/listener.go:74-98 | from an empty database used and free addresses together are exactly the first ones of the pool |
| FakeAddresses.RefusedIff | edgemesh/pkg/listener/listener.go:368-381 | a registration is refused exactly when nothing is free and the whole next block is in use |
| FakeAddresses.RefusedOnlyWhenFull | edgemesh/pkg/listener/listener.go:368-391 | from an empty database that happens only when all 65534 addresses are in use |
| ServiceRuns.DeleteRemoves | edgemesh/pkg/listener/listener.go:415-428 | a deletion removes the service from both tables, makes its address the last free one, and leaves the others alone |
| ServiceRuns.RegisterFirst | edgemesh/pkg/listener/listener.go:367-413 | a new service takes an address nobody uses, unless it is refused; the others keep theirs |
| ServiceRuns.RegisterAgain | edgemesh/pkg/listener/listener.go:393-413 | a known service keeps its address and changes its text |
| ServiceRuns.RunServes | edgemesh/pkg/listener/listener.go:367-428 | after any run a service is answered with the text of its last event, unless that was a deletion or was refused |
| ServiceRuns.AddressStays | edgemesh/pkg/listener/listener.go:367-428 | until it is deleted a service keeps its address, over every run |
| ServiceRuns.RecoveryServes | edgemesh/pkg/listener/listener.go:110-140 | after recovery without a clash exactly the listed services are answered, with their own texts, unless the pool gives none |
| EdgeListener.EdgeMesh.NextBlock | edgemesh/pkg/listener/listener.go:84-98 | the 16-bit loop ends at every block boundary and collects the free addresses of the block |
| EdgeListener.EdgeMesh.ReserveIP | edgemesh/pkg/listener/listener.go:100-108 | removes the first occurrence of the address and nothing else |
| EdgeListener.EdgeMesh.AddServer | edgemesh/pkg/listener/listener.go:367-413 | performs exactly the registration step |
| EdgeListener.EdgeMesh.DelServer | edgemesh/pkg/listener/listener.go:415-428 | performs exactly the removal step |
| EdgeListener.EdgeMesh.RecoverService | edgemesh/pkg/listener/listener.go:117-139 | performs exactly the recovery step of one row |
| EdgeListener.BuildSvcPorts | edgemesh/pkg/listener/listener.go:301-310 | the loop builds the specified port text |
| ProxyLookup.LookupMapsBack | edgemesh/pkg/listener/listener.go:198-219 | the port text of a service gives back its key and the protocol of the first segment that contains the port |
| ProxyLookup.UniquePortMapsBack | edgemesh/pkg/listener/listener.go:167-219 | with one matching segment the proxy gets that port's protocol and the service's namespace and name |
| ProxyLookup.Port80Behind8080 | edgemesh/pkg/listener/listener.go:212-217 | port 80 listed after port 8080 is given the protocol of 8080 |
| ProxyLookup.TextNamesItsService | edgemesh/pkg/listener/listener.go:198-219 | on any port the text of a service gives back the service key, exactly when the service has a port |
| ProxyLookup.AddressNamesItsService | edgemesh/pkg/listener/listener.go:167-219 | over every run, from an empty database or one whose rows do not clash, the address of a service whose last event or row announced ports gives back its namespace and name on every port |
| ProxyLookup.AddressLeadsBack | edgemesh/pkg/listener/listener.go:167-219 | over the same runs the proxy connects to the service on its port exactly when the first segment that contains the port's digits is http, and that segment is the port's own unless an earlier one contains the digits |
| ProxyLookup.DeletedIsUnreachable | edgemesh/pkg/listener/listener.go:415-428 | a service whose last event is a deletion, or that was never announced, has no address |
| ProxyLookup.UnlistedPortIsRefused | edgemesh/pkg/listener/listener.go:167-196 | a port that no segment mentions is refused |
| ProxyLookup.ProtocolIsPrefix | edgemesh/pkg/listener/listener.go:301-310 | the protocol is the port name up to its first dash |
| ProxyLookup.FindProtocol | edgemesh/pkg/listener/listener.go:198-219 | the loop returns the specified protocol and key |
| Dns.HeaderRoundTrip | edgemesh/pkg/dns/dns.go:210-218 | a written header reads back unchanged |
| Dns.GetQName | edgemesh/pkg/dns/dns.go:258-278 | the loop over a moving offset computes the specified name and end, and fails exactly when that does |
| Dns.ParseDNSQuery | edgemesh/pkg/dns/dns.go:175-231 | the parser computes the specified result, with its panic, ignore and upstream cases |
| Dns.ParseQuery | edgemesh/pkg/dns/dns.go:175-278 | for every well-formed one-question query the parser recovers header, dotted name, exact question bytes, type and class |
| Dns.ResponseReadsBack | edgemesh/pkg/dns/dns.go:134-256 | the response to an A query decodes, by sections 4.1.1 to 4.1.4 of RFC 1035, to the same id, QR set, the echoed question and one A record for its name, exactly when NSCOUNT and ARCOUNT are zero |
| Dns.RefusalNeverReadsBack | edgemesh/pkg/dns/dns.go:150-159 | without an IPv4 address the response counts an answer it does not carry and never decodes |
| Dns.QuestionIsAnswered | edgemesh/pkg/dns/dns.go:134-173 | every well-formed question is answered here exactly when it asks for an A record of a service of this cluster, and the answer decodes to the echoed question and one A record with the address and a TTL of 64, exactly when NSCOUNT and ARCOUNT are zero |
| Dns.QuestionIsRefused | edgemesh/pkg/dns/dns.go:150-161 | without an address the response has the same id, QR set, the question echoed and RCODE 5 for a query that had none, and never decodes |
| Dns.ParseCases | edgemesh/pkg/dns/dns.go:175-201 | responses are ignored, and anything but one question, or one for the root, goes to a real server |
| Dns.RecordHandle | edgemesh/pkg/dns/dns.go:134-173 | the appends assemble exactly the specified response, and there is one exactly for an A question about a service of this cluster |
| TunnelMessage.FrameRoundTrip | pkg/stream/message.go:70-103 | every message that can be framed is read back with the same id, type and data |
| TunnelMessage.SmallKindsFit | pkg/stream/message.go:70-103 | types below 2^42 always fit the 16-byte header beside any 64-bit id, and come back |
| TunnelMessage.BoundIsExact | pkg/stream/message.go:70-76 | with an id of 2^63 or more, framing succeeds exactly for types below 2^42 |
| TunnelMessage.VarintFormat | pkg/stream/message.go:70-76 | a number is written seven bits a byte, least significant first, with the high bit on all but the last byte |
| TunnelMessage.FrameLayout | pkg/stream/message.go:70-76 | a frame is the id, then the type, then the data |
| TunnelMessage.PutUvarint | pkg/stream/message.go:70-76 | filling the buffer writes the varint after what is there, and fails exactly when it does not fit |
| TunnelMessage.Bytes | pkg/stream/message.go:70-76 | the buffer and moving offset produce exactly the frame |
| TunnelMessage.ReadUvarint | pkg/stream/message.go:82-91 | the accumulating reader computes the specified value and length |
| TunnelSession.ExactlyItsPayload | cloud/pkg/cloudstream/session.go:88-134 | after any run a new connection receives exactly the in-order payloads tagged with its id between its addition and deletion |
| TunnelSession.SilentWhenGone | cloud/pkg/cloudstream/session.go:88-95 | a deleted connection receives nothing more, whatever frames still arrive |
| TunnelSession.IdsAreNeverReused | cloud/pkg/cloudstream/session.go:116-127 | before the 64-bit counter wraps, an id is never given to a second connection |
| TunnelSession.NextId | cloud/pkg/cloudstream/session.go:116-127 | every draw takes the next 64-bit number, and an open session registers the connection under it |
| TunnelSession.DoneIff | cloud/pkg/cloudstream/session.go:51-104 | over every run a connection is told that its edge peer is gone exactly by a remove frame for its id or the closing of the session while it is registered |
| TunnelSession.ClosedRefuses | cloud/pkg/cloudstream/session.go:51-60 | a closed session registers nobody and spends the id |
| TunnelSession.TunnelSession.ProxyTunnelMessage | cloud/pkg/cloudstream/session.go:88-110 | the partial-write loop delivers exactly the accepted prefix, all of it when the writer does not fail |
| TunnelSession.TunnelSession.AddConnection | cloud/pkg/cloudstream/session.go:116-127 | performs exactly the addition step; a closed tunnel refuses but spends the id |
| DeviceProfile.AddKeeps | cloud/pkg/devicecontroller/controller/downstream.go:215-256 | adding any device keeps a consistent profile consistent |
| DeviceProfile.DeleteKeepsIff | cloud/pkg/devicecontroller/controller/downstream.go:765-838 | a delete keeps it consistent exactly when the stored model is the device's or shared (or the absent device meets no unnamed protocol), or the model is unknown |
| DeviceProfile.UpdateKeepsIff | cloud/pkg/devicecontroller/controller/downstream.go:497-585 | an update keeps it consistent exactly when the device is present, the profile is empty, or an unsupported protocol replaces an unnamed one |
| DeviceProfile.RegularRunsStayConsistent | cloud/pkg/devicecontroller/controller/downstream.go:215-838 | over every run of regular edits instance protocols and protocol entries are the same multiset and models are those referenced, once each |
| DeviceProfile.NoInstancesMeansEmpty | cloud/pkg/devicecontroller/controller/downstream.go:738-753 | a consistent profile has no instances exactly when all three lists are empty, the state in which the config map is deleted |
| DeviceProfile.ChangedModelIsLeftBehind | cloud/pkg/devicecontroller/controller/downstream.go:778-796 | deleting a device whose model reference changed always leaves an inconsistent profile when nobody else uses the old model |
| DeviceProfile.SwapRemoveMultiset | cloud/pkg/devicecontroller/controller/downstream.go:811-813 | overwriting with the last element and shortening removes exactly one occurrence |
| DeviceEffects.UpdateChanges | cloud/pkg/devicecontroller/controller/downstream.go:522-570 | an update renames the protocol of that instance and of nothing else, and swaps the old protocol entry for the new |
| DeviceEffects.UpdateReachesAllIff | cloud/pkg/devicecontroller/controller/downstream.go:551-567 | with several instances of one name all carry the new protocol exactly when the later ones already did |
| DeviceEffects.AddAppends | cloud/pkg/devicecontroller/controller/downstream.go:215-256 | an added device is the last instance, with its protocol entry, and its model is listed once |
| DeviceEffects.DeleteTakes | cloud/pkg/devicecontroller/controller/downstream.go:765-838 | a deleted device loses its instance and its protocol entry, and its model exactly when nobody else refers to it |
| DeviceEffects.InstancesFollowEdits | cloud/pkg/devicecontroller/controller/downstream.go:215-838 | over regular runs without a double addition the profile holds one instance for each device whose last edit was not a deletion, with its model and the protocol of that edit, and no other |
| DeviceProfile.ConfigMap.AddDeviceProfile | cloud/pkg/devicecontroller/controller/downstream.go:215-256 | performs exactly the add edit |
| DeviceProfile.ConfigMap.DeleteFromDeviceProfile | cloud/pkg/devicecontroller/controller/downstream.go:765-838 | performs exactly the delete edit |
| DeviceProfile.ConfigMap.UpdateProfile | cloud/pkg/devicecontroller/controller/downstream.go:522-570 | performs exactly the update edit |
| PodPhase.CountInits | edge/pkg/edged/edged_pods.go:1058-1090 | the init counters count each class and partition the init containers |
| PodPhase.CountContainers | edge/pkg/edged/edged_pods.go:1092-1124 | the container counters count each class and partition the containers |
| PodPhase.GetPhase | edge/pkg/edged/edged_pods.go:1057-1164 | the counting loops and the decision compute the phase stated without counters |
| PodPhase.FinalPhases | edge/pkg/edged/edged_pods.go:1126-1164 | Failed only under Never, no final phase under Always, Succeeded only when every container terminated with exit code 0 |
| PodPhase.PhaseTable | edge/pkg/edged/edged_pods.go:1057-1164 | exactly when a pod is Failed, Pending, Succeeded and Running, on container states, exit codes and policy |
| PodPhase.NextIs | edge/pkg/edged/edged_pods.go:978-1007 | a runtime error makes the phase Unknown, a pod being deleted has succeeded, a final phase stays, and otherwise it is computed |
| PodPhase.FinalStaysIff | edge/pkg/edged/edged_pods.go:978-1007 | a final phase stays through a run exactly when no update hits a runtime error or deletes a failed pod |
| PodPhase.FinalIsAbsorbing | edge/pkg/edged/edged_pods.go:991-1004 | with runtime status and no deletion a final phase is absorbing |
| PodPhase.Pod.UpdatePodStatus | edge/pkg/edged/edged_pods.go:973-1021 | writes exactly the specified next phase |
| MetaKey.RequestRoundTripIff | pkg/metaserver/key.go:61-161 | a printed request key parses back to the request exactly when no part is a reserved placeholder |
| MetaKey.TrailingSlashes | pkg/metaserver/key.go:117-120 | trailing slashes never change what a key stands for |
| MetaKey.ObjectAndRequestAgreeIff | pkg/metaserver/key.go:28-96 | an object and the request that fetches it have the same key exactly when the object has a name |
| MetaKey.NamelessKeysMeanTheSame | pkg/metaserver/key.go:28-170 | without a name the two keys still parse to the same thing |
| MetaKey.ParseKey | pkg/metaserver/key.go:116-161 | the trimming loop and the index table compute the specified meaning |
| MetaKey.IndexCheck | pkg/metaserver/key.go:164-170 | exactly the indexes out of range become 0 |
| MetaKey.RequestKeyText | pkg/metaserver/key.go:61-96 | the key of a request spells group, version, resource, namespace and name in this order, with placeholders for what is empty |
| MetaKey.HasKeyIff | pkg/metaserver/key.go:61-84 | a request has a key exactly for resources of the legacy API or of a named group |
| MetaKey.RelativeKeyMeansNothing | pkg/metaserver/key.go:116-127 | a key that does not start with a slash stands for nothing |

## Left out

- Websocket, QUIC, HTTP, gRPC, MQTT, Bluetooth and Modbus transport, TLS setup, certificates: no state to reason about here.
- Mutexes: each handler call is one atomic step, so races inside a call and unbalanced locks are not modelled.
- Liveness of delivery: a message that is given up after five writes is not sent again until something newer arrives.
- The keepalive loop and node registration; a node that stops takes no further steps. The list queue is modelled for
  ingress resources only, with one write loop per node.
- A second write loop for a node that stops and registers again.
- AddMessageToQueue: takes the node from its caller; `GetNodeID` is stated in RoutedMessage for routed messages only.
- AckNeverLowersVersion: assumes UIDs without dots and one UID per key, as Kubernetes generates them; numerals with leading zeros count as equal.
- AgreementByNameIff: assumes that digests do not collide on the texts of this ingress and that no service is called like a cut name, which `CutNameCanBeTaken` shows to be needed; names hold no underscore, as in Kubernetes.
- GetRoutes: match conditions, virtual-host grouping and the node group annotation of the ingress are not modelled.
- GetClusters: transport sockets, discovery settings and the endpoint and secret generators are not modelled.
- GetListeners: the http filters, protocols and addresses of a listener are not modelled.
- The bodies of endpoints, secrets and listeners are texts; how the edge's Envoy uses them is not modelled.
- AddServer: writes to the edge database and their errors are not modelled.
- RecoverService: rows whose lookup in the database fails are skipped by the source and do not appear.
- RecordHandle: forwarding to upstream servers and the service lookup are not modelled; the address is a parameter.
- Shorten: strings are sequences of bytes and the digest is a parameter of its fixed length.
- InstancesFollowEdits: assumes that no device is added while it is there, which `UpdateReachesAllIff` shows to be needed.
- UpdateProfile: twins, property visitors and data settings of an instance are not modelled.
- UpdatePodStatus: the runtime is present; conditions, probes and the conversion of runtime states are not modelled.
- KeyOfObject: the translation of a kind to a resource name is not modelled.
- The edge Envoy control plane, which caches what arrives and serves it to Envoy; mappers and CSI forwarding, which
  pass requests on to devices and drivers; command lines and generated code.
