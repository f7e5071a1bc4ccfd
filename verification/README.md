# Contrasleuth, modelled

Contrasleuth is an offline messenger. Each device runs a backend that stores opaque, expiring payloads and
gossips them to whoever is nearby, derives inbox messages from the payloads it can open, and reports them to a
frontend that keeps its own copy. These modules model that machinery and prove what it keeps:

- `ProofOfWork` - the checked 64-bit target and its comparison.
- `Inventory` (values) and `InventoryStore` (the shared, mutable store) - four redundant indexes, the table, the
  arrival counter, the expiry sweep, and the log of mutations sent to the consumer.
- `ManualResetEvent`, `Reconciliation` - one link as the program runs it: the flags, the server, the client.
- `InventoryOrder` - the inventory as the ordered list of messages it stands for.
- `Gossip` - the same protocol as atomic steps of any number of nodes and links, clocks, sweeps, local submissions,
  new and broken connections. `GossipSafety` holds the invariant and its consequences, `GossipTermination` the
  measure, `GossipAtomic` the runs in which a peer's check and its insertion are one step, `GossipSilence` a network
  that rests without agreeing, `GossipDuplicates` one in which two links store the same message; `GossipEffects` says
  exactly what each step changes.
- `Lookup` - the scan for published public halves while others insert and sweep.
- `PrivateBox`, `Recipients` - the multi-recipient box, and the path from the compose page to the keys it is sealed
  for.
- `Derivation` (tables as values), `Deriver` (the task that updates them), `DerivationInvariant` (what each mutation
  and command keeps), `DerivationEffects` (what each leaves behind, exactly), `DerivationRuns` (every run of them,
  fed by the inventory's log), `DerivationFailures` (exactly where soundness is lost, with runs that lose it).
- `Frontend` - the frontend's inboxes, as values and as objects updated in place; `Mirror`, `MirrorRuns` and
  `StateDump` relate them to sound tables over every run, `Showing` to any tables whatever.
- `AnswerQueue` - requests and answers over one pair of streams.

A claim that is false of the program as it stands appears with the exact condition under which it is true:

- Inserting a hash that is live leaves a stale entry behind for good (`Inventory.InsertKeepsBijectiveIffFresh`,
  `Inventory.DuplicateLeavesStaleEntry`, `Inventory.StaleStaysStale`).
- A saved message that outlived every payload it came from is stored and counted a second time when it arrives again
  (`DerivationRuns.ActKeepsInvariant`, `DerivationFailures.RedeliveryHappens`, `Mirror.RedeliveryMiscounts`).
- A payload consumed again while one of its rows is there derives that row again
  (`DerivationInvariant.RepeatedArrivalRepeatsRow`). Because rows are counted before they are deleted, the next purge
  may then strand a message that nothing holds, or delete one that is still held; which of them happens depends on
  whether the database's cursor yields a row that was deleted under it (`DerivationFailures.RepeatedRowCosts`,
  `DerivationFailures.RepetitionStrands`, `DerivationFailures.RepetitionDangles`).
- A consumer that lags behind the inventory stores a message twice exactly when the inventory has lost all that held
  it (`DerivationFailures.LaggingArrivalDuplicatesExactly`, `DerivationFailures.LagDuplicates`).
- Where a connection breaks after the server stored a message and before it raised its flags, the network may come to
  rest without agreeing (`GossipSilence.RestIsNotAgreement`). It agrees along every path whose senders have announced
  what arrived (`GossipSafety.ConvergenceAtRest`), which they have if no connection broke like that
  (`GossipSafety.GentleConvergenceAtRest`); for a single link `GossipSafety.RestingLinkIsCaughtUpExactly` says exactly
  what is missing.
- A node accepts a hash at most once if a peer's check and its insertion are one step (`GossipAtomic.AcceptedOnce`).
  They are two: both of two links may pass the check and store (`GossipDuplicates.TwoLinksStoreOneMessage`). The
  counter maps stay inverse exactly as long as nothing live is stored again (`GossipAtomic.StepKeepsInverseExactly`).
- The frontend shows the tables rightly exactly as long as no message event repeats a message that it shows unread
  (`Showing.ShowsThroughoutRun`), also where rows are repeated or consumption lags and the tables are not sound.
- The compose page's limit of 255 recipients lets through drafts that cannot be encrypted for anyone
  (`Recipients.SendableExactly`, `Recipients.PageLimitIsNotEnough`).
- The decoder's subtraction of a header's position from the recipient count stays within a byte for every box the
  encoder makes (`PrivateBox.EncodedIsNotMiscounted`), but not for all bytes (`PrivateBox.UnderflowExactly`,
  `PrivateBox.UnderflowHappens`).

Hashes are ideal: a digest is a value that keeps its inputs apart. Cryptography is a record of functions; the laws it
must obey are hypotheses about the keys and headers at hand, and `PrivateBox.RoundTripCanBeAsked` meets all of
them at once. Clocks, random draws and what a payload means to an inbox are parameters.

## Model

| member | source | states |
|---|---|---|
| ProofOfWork.DifficultyMatchesIdeal | backend/src/proof_of_work.rs:19-32 | checked arithmetic reports overflow exactly when the unbounded formula leaves 64 bits, and otherwise computes it; the denominator is never zero |
| ProofOfWork.TargetMatchesIdeal | backend/src/proof_of_work.rs:19-38 | the target is 0 exactly on overflow, otherwise the unbounded formula, never above it |
| ProofOfWork.TargetIsMonotone | backend/src/proof_of_work.rs:19-38 | for all lengths and lives, a longer payload or longer life never raises the target, across the overflow boundary too |
| ProofOfWork.ProofStaysValid | backend/src/proof_of_work.rs:40-74 | a nonce that met the target at submission is accepted at a later time exactly until the message expires |
| ProofOfWork.AcceptedExactly | backend/src/proof_of_work.rs:40-74 | a nonce is accepted if and only if the message has not expired and its work times the unbounded difficulty, for the whole seconds left, stays within 64 bits; work 0 alone is accepted where the difficulty does not |
| Inventory.NextCounter | backend/src/inventory.rs:78-96 | the read past a cursor yields the least later entry, or nothing when there is none |
| Inventory.NextCounterIsExact | backend/src/inventory.rs:78-96 | a read finds nothing exactly when nothing lies ahead, and otherwise leaves one entry less ahead |
| Inventory.InsertKeepsConsistent | backend/src/inventory.rs:255-283 | insertion, duplicates included, keeps the key sets equal, live counters leading back, each hash in its one bucket |
| Inventory.InsertKeepsBijectiveIffFresh | backend/src/inventory.rs:112-141 | the counter maps stay mutually inverse if and only if the inserted hash was not live |
| Inventory.DuplicateLeavesStaleEntry | backend/src/inventory.rs:263-274 | after a duplicate expires and is swept, the older counter still names it |
| Inventory.StaleStaysStale | backend/src/inventory.rs:176-217 | no insertion or sweep ever repairs a stale entry |
| Inventory.PurgeKeepsConsistent | backend/src/inventory.rs:176-217 | a sweep leaves exactly the live hashes that expire later, in every index and on disk |
| Inventory.PurgeKeepsBijective | backend/src/inventory.rs:190-216 | a sweep keeps the counter maps mutually inverse |
| Inventory.RunRefinesSet | backend/src/inventory.rs:220-286 | over every run the live hashes are those a plain set of hashes would hold; the counter maps end mutually inverse if and only if every insertion was fresh |
| Inventory.ReplaySnoc | backend/src/inventory.rs:207-281 | one more mutation changes the replayed set and the order of purges as it should |
| Inventory.PurgesKeepLog | backend/src/inventory.rs:190-208 | purges of what is due, in the order of a schedule, keep the log orderly and arrive at the rest |
| Inventory.RunLogs | backend/src/inventory.rs:143-286 | over every run the log stays orderly and replays to the live set, and inserts nothing twice if and only if every insertion was fresh |
| InventoryOrder.RunRefinesList | backend/src/inventory.rs:112-141 | over every run, duplicates included, the inventory is an ordered list of messages: as first stored, in order of latest arrival, without the expired |
| InventoryOrder.FreshRunAppends | backend/src/inventory.rs:255-283 | when every insertion is fresh the list only grows at its end and sweeps filter it |
| InventoryOrder.NextIsSuccessor | backend/src/inventory.rs:78-96 | where no entry is stale, a read from any cursor yields the first message of the list past it, and nothing exactly when there is none |
| InventoryOrder.ScanReadsList | backend/src/inventory.rs:78-96 | after every fresh run, reading from cursor to cursor yields the messages in the order they were inserted |
| InventoryStore.Store.InsertMessage | backend/src/inventory.rs:255-283 | the store after an insertion is the specified one, and the log still replays to the live set |
| InventoryStore.Store.PurgeExpired | backend/src/inventory.rs:176-217 | removes exactly the due hashes, one purge each, in non-decreasing expiry; the log still replays to the live set |
| InventoryStore.SweepingAdvances | backend/src/inventory.rs:193-208 | in the middle of a sweep, with some hashes gone, the indexes and the log account for each other |
| InventoryStore.VisitAdvances | backend/src/inventory.rs:190-193 | going through buckets in order of time meets the hashes in order of expiry, none twice |
| InventoryStore.Store.Populate | backend/src/inventory.rs:143-174 | numbering the stored rows in any order yields mutually inverse indexes of exactly those rows, and a log that replays to them |
| InventoryStore.LoadingAdvances | backend/src/inventory.rs:157-173 | numbering one more stored row keeps the partly loaded store consistent |
| InventoryStore.Store.GetOneAfterCounter | backend/src/inventory.rs:78-96 | the first entry past the cursor in order of arrival, or none exactly when there is none |
| InventoryStore.Store.GetMessage | backend/src/inventory.rs:235-254 | a live hash finds its row, a hash that is not live finds none, and the row is of that hash |
| InventoryStore.Store.GetExpirationTime | backend/src/inventory.rs:101-107 | the expiration of a live hash, and nothing for any other |
| ManualResetEvent.MPMCManualResetEvent.GetHandle | backend/src/mpmc_manual_reset_event.rs:18-24 | a new listener gets a handle and a flag nobody else has, lowered |
| ManualResetEvent.MPMCManualResetEvent.Broadcast | backend/src/mpmc_manual_reset_event.rs:35-39 | raises every registered flag and changes no registration |
| Reconciliation.Server.Submit | backend/src/reconcile_server.rs:48-82 | stores exactly when the hash is new and the work suffices, then raises every flag; otherwise changes nothing |
| Reconciliation.Client.Deliver | backend/src/reconcile_client.rs:89-100 | the peer stores the message exactly if it lacks it and it has not expired, and raises its flags exactly then |
| Reconciliation.Client.Carry | backend/src/reconcile_client.rs:83-100 | one hash asked about: the peer stores the sender's row exactly if it lacks the hash, the sender still has it and it has not expired, and raises its flags exactly then |
| Reconciliation.Client.Offer | backend/src/reconcile_client.rs:78-100 | one turn of the scan: the peer gains at most the next hash, unexpired and with the sender's row, has it afterwards unless it expired, and raises its flags if and only if it gained it |
| Reconciliation.Client.Reconcile | backend/src/reconcile_client.rs:74-110 | an uninterrupted scan leaves the peer with everything unexpired ahead of the old cursor and nothing else, each with the sender's row, and nothing ahead of the new one; a flag of the peer is up afterwards if and only if it was before or the peer gained something |
| Reconciliation.OfferedAdvances | backend/src/reconcile_client.rs:78-100 | one more entry offered extends what the peer has been offered and gained, and shrinks what lies ahead |
| Reconciliation.BringingGains | backend/src/reconcile_server.rs:60-72 | a peer gains the offered hash at most, unexpired and with the sender's row, and does not change if it gains nothing |
| GossipSafety.StepKeepsInvariant | backend/src/reconcile_client.rs:58-110 | every step of every node and link, in any interleaving, keeps delivery, wake-ups and sufficient work |
| GossipSafety.CheckKeepsLink | backend/src/reconcile_server.rs:60-68 | a peer turns a submission down only when it has the hash or the message expired |
| GossipSafety.NoLostWakeUp | backend/src/reconcile_client.rs:58-72 | in every reachable network a parked client with an announced arrival ahead of its cursor has its flag raised or a Proceed on the way |
| GossipSafety.PerLinkDelivery | backend/src/reconcile_client.rs:78-100 | in every reachable network, what is live at the sender behind the cursor is live at the receiver, expired, or the one hash in flight |
| GossipSafety.StoredMessagesPassEveryCheck | backend/src/reconcile_server.rs:64-67 | in every reachable network a stored message passes any peer's check exactly until it expires |
| GossipSafety.RestingLinkIsCaughtUpExactly | backend/src/reconcile_client.rs:74-110 | at rest a receiver lacks something unexpired of its sender exactly if an arrival no flag was raised for, ahead of the cursor, did not come to it another way |
| GossipSafety.RestingPathIsCaughtUp | backend/src/reconcile_client.rs:74-110 | at rest, along any path of links whose senders have announced what arrived, what is unexpired at one end is at the other |
| GossipSafety.ConvergenceAtRest | backend/src/reconcile_client.rs:74-110 | at rest, nodes with paths both ways hold the same unexpired messages, in all reachable networks, if the senders on the paths have announced what arrived |
| GossipSafety.GentleConvergenceAtRest | backend/src/reconcile_server.rs:67-79 | that condition is met wherever no connection broke between a server storing a message and raising its flags |
| GossipSilence.RestIsNotAgreement | backend/src/reconcile_server.rs:67-79 | a reachable network at rest, with links both ways, in which one end has an unexpired message that the other has not |
| GossipTermination.InternalStepDescends | backend/src/reconcile_client.rs:58-110 | every internal step lowers the lexicographic measure of deliveries, broadcasts, wake-ups and entries left, whether or not submit is atomic |
| GossipTermination.InsertDescends | backend/src/reconcile_server.rs:67-72 | an insertion by a peer lowers the number of deliveries that may still be made |
| GossipTermination.AmbientStepRaisesNothing | backend/src/inventory.rs:176-217 | sweeps, ticks of the clock and broken connections raise no component of the measure: what a sweep takes is not accepted again |
| GossipTermination.GossipTerminates | backend/src/reconcile_client.rs:76-110 | in every endless run without new submissions and connections only finitely many steps are steps of nodes and links, however sweeps, ticks and broken connections are mixed in |
| GossipTermination.StuckIsAtRest | backend/src/reconcile_client.rs:103-109 | no internal step is possible if and only if the network is at rest |
| GossipTermination.GossipConverges | backend/src/reconcile_client.rs:74-110 | where gossip stops, nodes connected both ways agree, if the senders on the paths have announced what arrived |
| GossipTermination.GentleGossipConverges | backend/src/reconcile_server.rs:67-79 | ... which they have if no connection broke between storing and announcing |
| GossipTermination.GossipReachesAgreement | backend/src/reconcile_client.rs:58-110 | every endless run without new submissions and connections, in which sweeps, ticks and broken connections do not put off nodes and links for ever, comes to rest for good, and from then on connected nodes have the same unexpired messages |
| GossipAtomic.AcceptedOnce | backend/src/reconcile_server.rs:60-80 | if a peer checks and stores in one step, no node accepts a hash twice over any run, whatever it began with and whatever is swept, submitted or severed in between |
| GossipAtomic.StepKeepsInverseExactly | backend/src/inventory.rs:112-141 | any one step, with check and insertion apart, keeps the counter maps of all nodes inverse if and only if it does not store a hash where it is live |
| GossipAtomic.FreshRunsStayExact | backend/src/reconcile_server.rs:60-80 | if moreover local submissions are new, no node ever stores a hash it has |
| GossipDuplicates.TwoLinksStoreOneMessage | backend/src/reconcile_server.rs:60-72 | a reachable network in which two links passed the check before either stored, and one hash has two counters |
| GossipEffects.LiveExactly | backend/src/reconcile_server.rs:48-82 | after any step a hash is live at a node if and only if the step brought it, or it was live and no sweep took it; rows stay as they were |
| GossipEffects.SweepExactly | backend/src/inventory.rs:176-217 | a sweep leaves a node exactly its unexpired hashes with their rows, and the rest of the network as it was |
| GossipEffects.TickExactly | backend/src/proof_of_work.rs:44-49 | only the clock moves when it does, to where it is set, and no other step moves it |
| GossipEffects.FlagsExactly | backend/src/reconcile_client.rs:58-72 | after any step a flag is up if and only if its own node's broadcast raised it, or it was up and neither taken down by its client nor cut off; likewise the offered Proceed |
| GossipEffects.UnannouncedExactly | backend/src/reconcile_server.rs:67-79 | after any step an arrival is unannounced if and only if the step brought it, or it was and the step broadcast nothing at its node |
| GossipEffects.ClientsExactly | backend/src/reconcile_client.rs:74-110 | a step moves the client it is about and no other, and only a scan moves a cursor |
| GossipEffects.ScanExactly | backend/src/reconcile_client.rs:78-82 | a scan moves the cursor to the next arrival and parks exactly if there is none |
| GossipEffects.OfferExactly | backend/src/reconcile_client.rs:83-100 | a peer that has the hash is sent nothing; one that lacks it is sent the row exactly if it is still live |
| GossipEffects.CheckExactly | backend/src/reconcile_server.rs:60-67 | in every reachable network a submission passes the check if and only if the peer lacks it and it has not expired |
| Lookup.CommandAddsOnlyAhead | backend/src/inventory.rs:255-274 | insertions and sweeps change nothing live behind a cursor; arrivals land ahead of it, repeated ones too |
| Lookup.ScanMissesNothing | backend/src/derive_state.rs:1209-1237 | under arbitrary interference the counters visited increase, every hash live at the end was visited and reported, and nothing else was |
| Lookup.ScanReportsInOrder | backend/src/derive_state.rs:1209-1237 | under arbitrary interference no entry visited is reported twice, and reports come in order of arrival |
| Lookup.ScanTerminates | backend/src/derive_state.rs:1213-1216 | once insertions stop, the scan takes a bounded number of events |
| Lookup.LookupPublicHalf | backend/src/derive_state.rs:1209-1237 | the undisturbed scan reports exactly what the live payloads say, in order of arrival, once for each entry |
| Lookup.InOrderIsListed | backend/src/derive_state.rs:1209-1237 | where no entry is stale, that is what the stored messages say, each once, in the order they were stored |
| PrivateBox.Encrypt | backend/src/private_box.rs:12-40 | a box results exactly for at most 255 acceptable keys, and is the framed one |
| PrivateBox.Decrypt | backend/src/private_box.rs:42-106 | on any bytes: refused, or decided by the first of 255 headers that opens, with the cursor past the headers it counts |
| PrivateBox.OpenedExactly | backend/src/private_box.rs:42-106 | on any bytes, a plaintext is returned if and only if the tail after the headers that the first opening header counts opens to it under the key in that header |
| PrivateBox.BoxIsFramed | backend/src/private_box.rs:15-38 | nonce, ephemeral key, for every recipient a header sealing the key and the number of recipients, and the sealed text lie where the decoder looks for them |
| PrivateBox.EveryRecipientOpens | backend/src/private_box.rs:42-106 | every recipient, at every position and with repeated keys, recovers the plaintext with no byte out of range |
| PrivateBox.SealAndOpen | backend/src/private_box.rs:12-106 | encoder and decoder in a row return the plaintext exactly when the keys are few enough and acceptable |
| PrivateBox.UnderflowExactly | backend/src/private_box.rs:42-106 | on any bytes, the byte subtraction leaves its range if and only if the first header that opens, whichever it is, counts fewer recipients than there are headers up to it |
| PrivateBox.CountingNobodyUnderflows | backend/src/private_box.rs:94 | a first header that counts nobody, with anything after it, has exactly that outcome, under any lawful cryptography |
| PrivateBox.UnderflowHappens | backend/src/private_box.rs:94 | such bytes, and the key that reads them |
| PrivateBox.EncodedIsNotMiscounted | backend/src/private_box.rs:19-27 | what the encoder makes is never miscounted for a recipient |
| PrivateBox.LawsCanBeMet | backend/src/private_box.rs:12-106 | the general laws asked of the cryptography are consistent |
| PrivateBox.RoundTripCanBeAsked | backend/src/private_box.rs:12-106 | all hypotheses of the round trip are met at once, by two different recipients |
| Recipients.ReduceKeepsTidy | frontend/src/pages/ComposeMessage.tsx:314-448 | every action keeps the lists free of duplicates and disjoint |
| Recipients.AddingMovesTheSelection | frontend/src/pages/ComposeMessage.tsx:341-396 | adding moves the whole selection to the end of one list and takes it from the other, losing nobody |
| Recipients.ComposingStaysTidy | frontend/src/pages/ComposeMessage.tsx:314-448 | the same over every sequence of actions |
| Recipients.ComposingFollows | frontend/src/pages/ComposeMessage.tsx:314-448 | over every sequence of actions, which lists anyone is on is what the actions about that one person, and about whoever is selected, lead to |
| Recipients.RemovingTakesOff | frontend/src/pages/ComposeMessage.tsx:397-426 | removing takes one person off one list and changes nothing else |
| Recipients.DroppingKeepsOrder | frontend/src/pages/ComposeMessage.tsx:397-426 | those who stay on a list keep their order |
| Recipients.SelectingChangesTheSelection | frontend/src/pages/ComposeMessage.tsx:317-340 | selecting, unselecting and clearing change the selection by one person, or empty it, and nothing else |
| Recipients.SettingSets | frontend/src/pages/ComposeMessage.tsx:427-446 | image, content and expiration are changed by their own actions and a reset alone |
| Recipients.InitialDraft | frontend/src/pages/ComposeMessage.tsx:272-312 | a reply starts with its sender and whom it disclosed, each once, without the own inbox unless that is the sender |
| Recipients.EncodeMessage | backend/src/derive_state.rs:1118-1138 | the blob is the box for hidden, then disclosed, then own key, and exists exactly when those are few enough and acceptable |
| Recipients.KeysOfDraft | frontend/src/pages/ComposeMessage.tsx:1183-1203 | a draft is sealed for everyone chosen plus the sender once more, twice if not chosen |
| Recipients.SealedForExactly | backend/src/derive_state.rs:1118-1138 | a draft is sealed for a key if and only if it is the sender's or that of someone chosen |
| Recipients.RemovedIsNotSealedFor | frontend/src/pages/ComposeMessage.tsx:397-426 | after a removal the draft is sealed for that person's key if and only if it is the sender's or that of someone else still chosen |
| Recipients.SendableExactly | backend/src/derive_state.rs:1118-1138 | sendable if and only if at most 253 are chosen, or 254 with the sender among them |
| Recipients.LimitExactly | frontend/src/pages/ComposeMessage.tsx:508-512 | where nobody selected is chosen already, the page refuses exactly the additions that choose more than 255 |
| Recipients.PageLimitIsNotEnough | frontend/src/pages/ComposeMessage.tsx:508-512 | any selection that just reaches the page's limit makes a draft that cannot be encrypted |
| Recipients.LetThroughByThePage | frontend/src/pages/ComposeMessage.tsx:508-512 | drafts of every size up to the limit, with keys of the length the program reads, pass the page's own check, so the limit case is not empty |
| Recipients.EveryoneChosenOpens | backend/src/derive_state.rs:1118-1138 | everyone chosen, and the sender, opens what was sent |
| Derivation.LatestAmong | backend/src/derive_state.rs:688-702 | the running maximum is the latest expiration among the live items of a message, and absent exactly when none is live |
| Derivation.WithoutRow | backend/src/derive_state.rs:878-883 | deleting a derivation removes its rows and no other |
| Deriver.Deriver.StoredMessageExpirationTime | backend/src/derive_state.rs:676-703 | the loop over the rows, asking the inventory about each, finds that maximum |
| Deriver.Deriver.Insert | backend/src/derive_state.rs:713-858 | an item goes to every inbox in turn as specified, and to none if its row is gone |
| Deriver.Deriver.Purge | backend/src/derive_state.rs:859-907 | rows go as the cursor yields them, whatever its order and whether or not it yields deleted copies again, and messages with them where the count says so |
| DerivationInvariant.HeldExactlyWhenStored | backend/src/derive_state.rs:789-803 | a stored expiration is found exactly when a row holds the message, and is the latest of its rows |
| DerivationInvariant.ArrivalKeepsInvariant | backend/src/derive_state.rs:713-857 | the arrival of an item without rows, live already or not, keeps rows, messages and announcements sound; messages stay unique if and only if nothing abandoned is brought back |
| DerivationInvariant.CountIsExact | backend/src/derive_state.rs:869-877 | the count taken before deletion is at most one exactly when the row is the last |
| DerivationInvariant.DropRowKeepsSound | backend/src/derive_state.rs:869-905 | removing a row never strands an unsaved message and never deletes one that is saved or still held |
| DerivationInvariant.DropRowKeepsTruthful | backend/src/derive_state.rs:859-907 | removing the row that expires first leaves every announced maximum true |
| DerivationInvariant.DepartureKeepsInvariant | backend/src/derive_state.rs:859-907 | a purge in order of expiry, whatever the order of its cursor, takes exactly the item's rows and keeps the invariant |
| DerivationInvariant.UnsavedKeeps | backend/src/derive_state.rs:592-627 | unsaving keeps the invariant, and an unheld message is gone afterwards |
| DerivationInvariant.InboxDeletedKeeps | backend/src/derive_state.rs:970-990 | deleting an inbox keeps the invariant and exactly the rows and messages of the others |
| DerivationInvariant.AutosaveSetKeeps | backend/src/derive_state.rs:945-961 | the preference changes for that inbox alone, and the invariant stays |
| DerivationInvariant.RepeatedArrivalRepeatsRow | backend/src/derive_state.rs:803-816 | an item consumed again while a row of it is there derives that row again, whichever inbox it belongs to |
| DerivationEffects.DropRowTakesExactly | backend/src/derive_state.rs:866-905 | removing a row keeps a message if and only if it is another one, is saved, or had more rows counted; a message removed is reported, once, and nothing else is |
| DerivationEffects.PurgeSparesSaved | backend/src/derive_state.rs:859-907 | for any tables with unique messages and any cursor, no saved message is removed or reported expired |
| DerivationEffects.DepartureSparesExactly | backend/src/derive_state.rs:859-907 | after a purge, in whatever order, a message is there if and only if it is saved or another item still holds it |
| DerivationEffects.SavingFlagsExactly | backend/src/derive_state.rs:1140-1150 | saving sets the flag of that message alone |
| DerivationEffects.UnsavingFlagsExactly | backend/src/derive_state.rs:592-627 | unsaving clears the flag of that message alone, or deletes and reports it if and only if no row holds it |
| DerivationEffects.PreferencesExactly | backend/src/derive_state.rs:910-961 | a new inbox saves what it gets; setting the preference changes it for that inbox alone |
| DerivationEffects.DeletingTakesExactly | backend/src/derive_state.rs:970-990 | deleting an inbox takes its rows, messages and expiration along and nothing else |
| DerivationEffects.ArriveAtFilesExactly | backend/src/derive_state.rs:713-857 | one inbox files a row if and only if it can open the item and the message is held or can be parsed, and adds the message, saved as it prefers, if and only if no live item held it; its own entry raises its expiration to the maximum |
| DerivationEffects.ArriveAtSaysExactly | backend/src/derive_state.rs:767-856 | and says exactly that: a message that is new, an expiration later than all live items that hold it, the inbox seen, or nothing |
| DerivationEffects.ArrivalFilesExactly | backend/src/derive_state.rs:713-857 | the same for all inboxes, for any tables and any inventory |
| DerivationEffects.MessageAfterExactly | backend/src/derive_state.rs:711-1156 | after any mutation or command, which messages are there and which are saved |
| DerivationEffects.RowAfterExactly | backend/src/derive_state.rs:711-1156 | after any mutation or command, which rows are there |
| DerivationEffects.InboxAfterExactly | backend/src/derive_state.rs:711-1156 | after any mutation or command, which inboxes are there with which preference, and which hashes are live |
| DerivationRuns.ActKeepsInvariant | backend/src/derive_state.rs:711-990 | one mutation or command keeps the invariant if and only if it brings no abandoned message back and repeats no row |
| DerivationRuns.ActKeepsLegible | backend/src/derive_state.rs:767-839 | after every mutation or command whatever, each stored message can be parsed and each known expiration is of an inbox that is there |
| DerivationRuns.InvariantThroughoutRun | backend/src/derive_state.rs:711-1156 | over every run, hashes inserted again while live included: unique messages, distinct rows that lead to messages, held unsaved messages and true announced maxima, all the way, if and only if no abandoned message is brought back and no row repeated |
| DerivationRuns.NothingHolds | backend/src/derive_state.rs:705-711 | empty tables satisfy the invariant, so every run from them is covered |
| DerivationRuns.OrderlyLogIsExpected | backend/src/derive_state.rs:711-860 | whoever consumes an orderly log, with any commands in between, sees an expected run and ends with the log's live set |
| DerivationRuns.FreshLogHoldsThroughout | backend/src/derive_state.rs:711-860 | consuming an orderly log that inserts nothing twice, soundness is kept if and only if no abandoned message is brought back |
| DerivationRuns.InventoryFeedsDerivation | backend/src/inventory.rs:172-281 | both halves joined: any run of the inventory, its log consumed, any commands in between |
| DerivationFailures.FateAfter | backend/src/derive_state.rs:866-905 | the fate of an unsaved message after a cursor yielded a row of it any number of times, among any other rows of the item |
| DerivationFailures.RepeatedRowCosts | backend/src/derive_state.rs:869-883 | with repeated rows, a purge deletes an unsaved message exactly when nothing else holds it if and only if: no other row is left and the row had no copy or a deleted copy came up again; one is left and none came up again; or more are left |
| DerivationFailures.RepetitionStrands | backend/src/inventory.rs:263-274 | a run from empty tables: an item inserted twice and purged by a cursor that skips the copy leaves an unsaved message that nothing holds |
| DerivationFailures.RepetitionDangles | backend/src/inventory.rs:263-274 | the same with another item holding the message and a cursor that returns the copy: the message is deleted and a row still leads to it |
| DerivationFailures.RedeliveryHappens | backend/src/derive_state.rs:827-846 | a run from empty tables, without repetition and in order, that ends with one message twice |
| DerivationFailures.LaggingArrivalDuplicatesExactly | backend/src/derive_state.rs:713-839 | consumed against any inventory, an item stores a message again if and only if the inventory still has the item and has lost all that held the message, for some inbox |
| DerivationFailures.LagDuplicates | backend/src/derive_state.rs:713-839 | an orderly log without repetition whose consumer lags by two mutations and stores a message twice |
| DerivationFailures.SplitReadDuplicatesExactly | backend/src/derive_state.rs:797-839 | an item swept between the reading of its row and of its expiration stores again any message that is there |
| Frontend.InsertKeepsTidyExactly | frontend/src/store/index.ts:307-382 | inserting keeps unread count and reply index right if and only if the message is new or known to be read |
| Frontend.ExpireKeepsTidy | frontend/src/store/index.ts:390-414 | expiry keeps the count exact and the index the inverse of inReplyTo without empty sets |
| Frontend.MarkReadKeepsTidy | frontend/src/store/index.ts:567-581 | reading removes exactly that message from the unread ones and keeps the count |
| Frontend.EntryAfterExactly | frontend/src/store/index.ts:13-86 | after any event a message is shown if and only if it arrived, or was shown and did not expire; it arrives read exactly if it was read before, and later events change its expiration alone |
| Frontend.InboxTimeAfterExactly | frontend/src/store/index.ts:296-305 | an inbox's expiration is the latest it was told, and other events leave it |
| Frontend.MarksExactly | frontend/src/store/index.ts:567-605 | reading and marking change that flag of that message alone, and only if it is shown |
| Frontend.InboxesExactly | frontend/src/store/index.ts:731-751 | a new inbox is empty; a deleted one takes its own messages and read marks along and no others |
| Frontend.Inbox.InsertMessage | frontend/src/store/index.ts:307-382 | the inbox object ends up as specified: message, count, children |
| Frontend.Inbox.ExpireMessage | frontend/src/store/index.ts:390-414 | the inbox object ends up as specified, unknown messages ignored |
| Frontend.Store.Handle | frontend/src/store/index.ts:13-86 | one event changes the inbox it is about and no other |
| Frontend.Store.MarkMessageAsRead | frontend/src/store/index.ts:567-581 | count, message and read mark change together, and only for a known message |
| Mirror.ArriveAtMirrors | backend/src/derive_state.rs:713-857 | handling what an arrival at an inbox says keeps the frontend equal to the tables |
| Mirror.ArriveMirrors | backend/src/derive_state.rs:722-857 | the same over all inboxes, also for an item that has rows already |
| Mirror.DropRowMirrors | backend/src/derive_state.rs:884-905 | handling what a removed row says keeps the frontend equal to the tables |
| Mirror.ArrivalIsAddressed | frontend/src/store/index.ts:49-73 | nothing an arrival says takes a branch the frontend calls unreachable, and no shown message arrives again |
| Mirror.ExpiryIsAddressed | frontend/src/store/index.ts:74-84 | every reported expiry is of a message the frontend shows |
| Mirror.RedeliveryMiscounts | frontend/src/store/index.ts:359-361 | after a redelivery the unread count is right if and only if the message had been read |
| Mirror.HandledInTurn | frontend/src/store/index.ts:13-86 | handling two batches of events in turn is handling them as one |
| MirrorRuns.UnsaveMirrors | frontend/src/store/index.ts:595-605 | unsaving on both sides, and the expiry it may provoke, keeps them equal |
| MirrorRuns.ReachesExactly | frontend/src/store/index.ts:583-605 | in step, a command about a message reaches the backend if and only if the backend has that message, and every other action reaches it |
| MirrorRuns.InboxDeletedMirrors | frontend/src/store/index.ts:731-751 | deleting an inbox on both sides, read marks included, keeps them equal |
| MirrorRuns.StepKeepsMirror | frontend/src/store/index.ts:13-86 | one move of either side from sound tables keeps the frontend equal to them, flags and latest expirations included, unless it brings an abandoned message back; repeated rows do no harm |
| MirrorRuns.StepKeepsInStep | frontend/src/store/index.ts:13-86 | ... and keeps the tables sound as well if it repeats no row either |
| MirrorRuns.InStepThroughoutRun | frontend/src/store/index.ts:296-414 | over every run in which no abandoned message is brought back and no row repeated, the tables stay sound and the frontend shows their messages, flags and latest expirations, the inbox maxima, a right unread count and reply index |
| MirrorRuns.StartsInStep | backend/src/derive_state.rs:705-711 | empty tables and an empty frontend are in step, whatever was read before |
| Showing.EventShows | frontend/src/store/index.ts:13-86 | handling one event of a change of the tables keeps messages, parents, read marks, count, index and inbox maxima right if and only if the event does not repeat a message that is shown and unread |
| Showing.ConsumedShows | backend/src/derive_state.rs:713-858 | the same for an arrival at all inboxes, for any tables and against any inventory |
| Showing.DropRowsShow | backend/src/derive_state.rs:859-907 | whatever rows a purge removes, in whatever order and however many copies there are, the frontend stays right |
| Showing.TurnShows | frontend/src/store/index.ts:296-414 | the same for one turn of either side: an arrival, a purge, a command with what the frontend changes by itself, a message read |
| Showing.ShowsThroughoutRun | frontend/src/store/index.ts:296-414 | over every run the frontend stays right all the way if and only if no message event repeats a message that is shown and unread |
| Showing.NothingShows | backend/src/derive_state.rs:705-711 | an empty frontend is right for empty tables, whatever was read before, so every run from them is covered |
| Showing.InStepShows | frontend/src/store/index.ts:296-414 | a frontend in step with sound tables is right in this sense |
| StateDump.DumpMirrors | backend/src/derive_state.rs:1238-1341 | a frontend that loads the tables shows what the backend has |
| StateDump.LateFrontendIsInStep | frontend/src/store/index.ts:139-183 | from any tables that satisfy the invariant, loading puts a frontend in step, whatever messages were read |
| StateDump.DumpKnowsExpirations | backend/src/derive_state.rs:1288-1302 | a late frontend knows an expiration for a message if and only if an item still holds it, and then the latest |
| StateDump.MirrorsAgree | frontend/src/store/index.ts:139-183 | a late frontend and one that followed every event agree on all but the expiration of messages that nothing holds |
| AnswerQueue.Contract.Parse | frontend/src/store/contract.ts:215-279 | an answer shifts the oldest request of its queue and resolves it if the kinds match; anything else is handed on |
| AnswerQueue.DeliverKeepsInStep | frontend/src/store/contract.ts:215-279 | delivering a line keeps the queues equal to the answers in flight and owed |
| AnswerQueue.StepKeepsInStep | backend/src/state_derive_ipc.rs:166-460 | so does every request, every finished or aborted command and every asynchronous line |
| AnswerQueue.AnswersMatchRequests | frontend/src/store/contract.ts:126-130 | in every interleaving each answer resolves the request it was made for, and the mismatch branches are never taken |
| AnswerQueue.EveryRequestIsAccountedFor | frontend/src/store/contract.ts:126-130 | in every interleaving each request that seeks an answer is waiting or resolved with its own answer, exactly once, and no other is; events are delivered in order |
| AnswerQueue.CommandsAreServedInOrder | backend/src/state_derive_ipc.rs:166-460 | in every interleaving the commands done, at hand and still to be read are those issued, in order: none is lost, repeated or overtaken |
| AnswerQueue.AbortIsFinal | backend/src/state_derive_ipc.rs:166-460 | once the backend has stopped in a command it serves nothing more |
| AnswerQueue.KindsExactly | frontend/src/store/contract.ts:215-279 | what the frontend waits for is what the backend answers with, which commands get nothing, and which kinds two commands share |
| AnswerQueue.QuietMeansAnswered | backend/src/stdio_ipc.rs:127-135 | when all is read, done and delivered, no request is left waiting: each that sought an answer has been resolved with its own, once, every event has been delivered and every command is done |

## Left out

- GossipSafety.NoLostWakeUp: speaks of arrivals whose broadcast has happened; who is still to broadcast one, as long as no server is cut off, is tracked by `GossipSafety.Attended`.
- GossipAtomic.AcceptedOnce: needs the peer's check and insertion to be one step, because between them another link may insert the same hash (`GossipDuplicates.TwoLinksStoreOneMessage`); termination and delivery are proved without that.
- InventoryOrder.NextIsSuccessor: speaks of states without stale entries, because a read may yield a stale one.
- DerivationRuns.InvariantThroughoutRun: each mutation is consumed in the inventory that emitted it; `DerivationFailures.LaggingArrivalDuplicatesExactly` says what happens otherwise.
- MirrorRuns.InStepThroughoutRun: flags and latest expirations are followed while the tables are sound; `Showing.ShowsThroughoutRun` follows the rest without that.
- Showing.ShowsThroughoutRun: each turn and the events it causes are handled before the next turn; the gap before an insertion commits while read and hidden marks are looked up is not modelled.
- Sockets, remote calls, serialization, standard streams and the execution of SQL: calls are steps, tables are sequences and maps.
- Digests, signatures, key generation and the internals of the cryptographic library; slices of the wrong length, which make the original stop, are outside the functions that stand for it.
- Timestamps outside the range of the date library, which make the original stop.
- The 128-bit arrival counter is an unbounded number.
- Bounded channels, lock waits and the interleaving inside one inventory command; the mutation channel is an unbounded queue and every command one atomic step.
- Links that open before the stored rows are numbered, and restarts, which lose the indexes and replay every live hash to the consumer; what a replayed hash does to the tables is covered as a repeated insertion.
- The multi-threaded search for a nonce, its cancellation and the build without proof of work.
- Counters and lists of pending operations, set-up marks, hiding and unhiding, labels, contacts, and the contents of messages beyond their parent.
- Pages, routing, theming, localisation and the Wi-Fi Direct transport.
