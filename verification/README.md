# Plico storage protocols in Dafny

This project models the storage layer of Plico, where data is replaced, deleted and published
so that a crash at any system call leaves something a later process can finish. Its centre is
the projection reset of `src/cas/projection_store.rs`; around it stand the writer claims, the
offline migration, the immutable ledger, the content-addressed store and the context budget.

**The reset.** A reset exchanges a damaged projection pair with a sealed clean one, records its
progress in a Prepared and then an Applied marker, and takes the old pair apart in quarantine.
The model has four layers.

* `ResetProtocol`, `ResetProgress` and `PowerLoss` give the file system as a state machine. A
  `Run` is any sequence of enabled system calls. A process may die after any of them, which
  shows on disk only as the next call being made by another process. Each directory also has a
  log of its contents since its last sync; a `Loss` of power brings back any of them.
* `FileTree`, `Quarantine`, `Marker`, `Digests` and `ResetChecks` give the trees, the bounded
  traversals, the markers with their codecs and seals, what their digests determine path by path,
  and every read-only test with exactly what it accepts and the error it turns into.
* `ResetStore` is the code: a class whose methods make the system calls, any of which may fail
  with any error (`Faults.Io`). Each method says what it returns and has changed on any disk at
  all, and that on the disk of an interrupted reset every change it makes is a step of the
  protocol (`Path`). Among its promises are the errors: any error but `Indeterminate` means
  nothing was changed, and finishing answers `Indeterminate` only if something was. On any disk a
  recovery that succeeds and a finishing attempt that changes anything have found a live pair with
  the digests of the marker (`Recover`, `Finish`).
* `ResetRuns` joins them. A lifetime is any number of processes, each running that code on what
  the one before it left and stopped at any of its changes, with losses of power in between where
  they are strict. The joined history is a run (`AnyProcesses`, `AnyStrictProcesses`), so the
  theorems about runs hold of the code; publishing begins a lifetime (`PublishFirst`), resuming
  prolongs it wherever it stops, and without a failed call ends it (`ResumeNext`).

A step is `strict` if it destroys only when no Prepared marker can come back after a loss of
power. Runs of strict steps survive losses of power too (`PowerRunSound`).

**What turned out not to hold, and exactly when it does.**

* *Finishing and losses of power.* Process one exchanges the markers and dies before its sync;
  process two unlinks the transition file and dies before its sync; process three finds no
  transition file, so it syncs nothing before it deletes. A loss of power can then bring back a
  Prepared marker beside a quarantine from which something is gone. Every reset can get there
  (`GapReachable`, `GapLosesRecovery`). A step that takes anything from the quarantine is safe if and
  only if no Prepared marker may return (`DestructionSafety`). The code's steps are all strict if it
  starts in the prepared phase, or if the transition file is there, or if the Applied marker is
  durable; in the remaining case, with the old tree still there, an attempt that changes anything at
  all is not strict (`Finish`, `Resume`). Recovery refuses such a disk, changes nothing on it and
  without a failed call answers manual intervention (`Recover`, `GapRefused`), because the
  fingerprint of a tree that may be taken apart changes with everything taken from it
  (`RemainderFingerprint`). On any damaged disk it accepts if and only if identity and fingerprint
  miss the damage (`DamagedExact`); they can, below a directory on another device
  (`DamageMissed`), but nothing is taken from a tree with one (`Finish`).
* *Interrupted resets and manual intervention.* The publisher's fingerprint accepts trees that the
  quarantine traversal refuses. A reset that was merely interrupted always passes preflight if and
  only if the old tree lies on one device and has no directory of mode 0000 (`RunsPassPreflight`).
* *Migration and its evidence file.* A legacy vault with a top-level entry named
  `.plico-migration-backup-evidence.json` is never published: without any failed call the
  publication ends in a failed rollback. Every state of every publication keeps the legacy vault
  whole if and only if there is no such entry or it is a directory
  (`Migration.MigrationVault.Publish`).
* *Budget and empty content.* Content with an estimate of 0 tokens, which is no word or one, is meant
  to be rejected as empty. It is included if and only if the budget left is at least 2000, the full
  text does not fit, and the estimate of L1 is 0, or L1 is too large and the estimate of L0 is 0
  (`EmptyItemExact`). A summary that is picked is never reported as degraded
  (`Take`), whatever it was made from, because picking it has already cached it.

* *Assembly and text cut by bytes.* L1 without a summary is the first 8000 bytes of the text, and
  slicing inside a character panics. Loading L1 panics if and only if the cid does not split after
  two bytes, or no L1 is stored, no summarizer answers and byte 8000 of a longer text lies inside a
  character (`PanicExact`). An assembly panics if and only if it reaches a candidate whose full text
  does not fit and whose L1 is like that (`AssemblyPanics`). A long Chinese text without white space
  is one: it counts as one word, so its full text is rejected, and 8000 is no multiple of three
  (`WidePanics`).

## Model

| member | source | states |
|---|---|---|
| `FileTree.StepWeight` | src/cas/projection_store.rs:2184-2285 | every unlink, rmdir or restriction takes exactly one off the weight of the quarantined tree |
| `FileTree.StepKeepsRemainder` | src/cas/projection_store.rs:2091-2173 | whatever order entries go in, what is left is a remainder of the original tree |
| `FileTree.FingerprintImpliesQuarantine` | src/cas/projection_store.rs:4264-4378 | a tree the live fingerprint accepts passes the quarantine traversal iff it lies on one device and every directory can be opened |
| `FileTree.RemainderAcceptable` | src/cas/projection_store.rs:2006-2068 | every partly deleted remainder of an acceptable quarantine is acceptable |
| `FileTree.WalkWeight` | src/cas/projection_store.rs:4264-4378 | on one device the weight of a tree can be read off the rows of the fingerprint |
| `FileTree.RemainderSeen` | src/cas/projection_store.rs:4264-4378 | the rows of an acceptable tree change with everything taken from it |
| `FileTree.RemainderUnseen` | src/cas/projection_store.rs:4264-4378 | those of a tree on two devices do not |
| `Digests.FingerprintExact` | src/cas/projection_store.rs:4264-4378 | two trees on one device have the same live fingerprint iff they are the same path by path: inode, kind, mode, size, and content where it is recorded |
| `Digests.PairExact` | src/cas/projection_store.rs:4456-4597 | two pairs have the same tree digest iff they are the same path by path up to their inodes |
| `Digests.PointerExact` | src/cas/projection_store.rs:4247-4262 | the pointer digest is there exactly for a private, non-empty pointer of at most 4096 bytes, and determines its bytes |
| `Digests.ChangeSeen` | src/cas/projection_store.rs:4264-4378 | a recorded file with other content changes both digests |
| `Digests.FingerprintAcceptsExact` | src/cas/projection_store.rs:4264-4378 | a tree has a fingerprint iff it has few enough entries, none too deep and none too large, by path |
| `Digests.PairAcceptsExact` | src/cas/projection_store.rs:4456-4597 | a pair has a digest iff it has fewer than 16 entries, at depth 4 at most, all private directories and private regular files |
| `Digests.QuarantineAcceptsExact` | src/cas/projection_store.rs:1945-2068 | a quarantine may be taken apart iff it is a leaf or has at most 4096 entries, all on one device, near the root and with openable directories, by path |
| `Quarantine.ValidateDirectory` | src/cas/projection_store.rs:2006-2068 | accepts exactly the directories within the device, mode, depth and entry limits, with one count shared by the whole walk |
| `Quarantine.ValidateQuarantine` | src/cas/projection_store.rs:1945-1992 | accepts exactly the acceptable entries; a leaf needs no walk |
| `Quarantine.CountNames` | src/cas/projection_store.rs:2197-2214 | counts every name of a directory before any entry is touched, and never past the limit |
| `Quarantine.CleanupDirectory` | src/cas/projection_store.rs:2184-2285 | empties exactly the acceptable directories within the shared count; every intermediate tree is one system call from the last, no directory is removed while it is unsynced, and `mutated` says exactly whether the tree got smaller |
| `Quarantine.RemoveEntry` | src/cas/projection_store.rs:2216-2283 | removes one entry with all below it, and reports exactly whether anything was changed on failure |
| `Quarantine.EmptyEntry` | src/cas/projection_store.rs:2217-2261 | tests one entry and empties it if it is a directory; the steps inside become steps of the directory around it |
| `Quarantine.EmptyChild` | src/cas/projection_store.rs:2246-2261 | restricts a subdirectory to 0700, empties it and syncs it, so that one call can remove it |
| `Marker.DecimalRoundTrip` | src/cas/projection_store.rs:3003-3025 | decimal device and inode numbers parse back to themselves and are canonical |
| `Marker.IdentityRoundTrip` | src/cas/projection_store.rs:4026-4082 | an observed identity survives being written to a marker and read back |
| `Marker.RenderInjective` | src/cas/projection_store.rs:4026-4042 | different observed identities are written differently |
| `Marker.CanonicalExact` | src/cas/projection_store.rs:3003-3025 | a canonical number is the rendering of exactly one 64-bit number |
| `Marker.IdentityExact` | src/cas/projection_store.rs:3003-3025 | an identity in a marker is valid iff it is the rendering of something observable |
| `Marker.DirectoryExact` | src/cas/projection_store.rs:4044-4053 | it is read as a directory iff it is the rendering of that directory with mode 0700 |
| `Marker.KindExact` | src/cas/projection_store.rs:2315-2327 | the code of an entry tells its kind, and which code stands for which |
| `Marker.RemainderFingerprint` | src/cas/projection_store.rs:4264-4378 | the live fingerprint of a tree that may be taken apart differs from that of every proper remainder; `Digests.FingerprintExact` states what it determines |
| `Marker.MarkerDeterminism` | src/cas/projection_store.rs:3172-3204 | the Applied marker recovery builds from the Prepared marker alone is the one the publisher builds from what it observes; both are valid, and the Prepared marker can be rebuilt from it |
| `Marker.AppliedUnique` | src/cas/projection_store.rs:2896-2989 | two valid Applied markers are equal iff the Prepared markers behind them are |
| `Marker.MarkerExact` | src/cas/projection_store.rs:2896-2989 | a marker is valid iff some publisher could have written it, as Prepared or as Applied |
| `ResetProtocol.StepRecognised` | src/cas/projection_store.rs:3311-3431 | every enabled system call leads from a state recovery recognises to another one |
| `ResetProtocol.RunRecognised` | src/cas/projection_store.rs:385-531 | every state of every run, whatever process died where, is one recovery recognises |
| `ResetProtocol.NoEarlyDestruction` | src/cas/projection_store.rs:681-1046 | the old tree is whole in exactly one of two places until the marker says Applied and the clean pair is live; the first step that takes from it starts there |
| `ResetProtocol.StepRank` | src/cas/projection_store.rs:1705-1941 | every visible change takes exactly one off the number of changes left |
| `ResetProtocol.RunChanges` | src/cas/projection_store.rs:1705-1941 | in every run, changes made and changes left add up to the same number, so interruption never repeats work |
| `ResetProtocol.StepTidy` | src/cas/projection_store.rs:2184-2285 | the logs end in what is visible, and only directories still in quarantine are unsynced |
| `ResetProgress.ShrinkExists` | src/cas/projection_store.rs:2091-2173 | a quarantined tree that cannot be removed at once can always be made smaller |
| `ResetProgress.Advance` | src/cas/projection_store.rs:1705-1941 | from every unfinished state, syncs and one strict change lead one rank down |
| `ResetProgress.Completes` | src/cas/projection_store.rs:385-531 | from every resumable state strict steps lead to the end |
| `ResetProgress.RunCompletes` | src/cas/projection_store.rs:1705-1941 | every run can be continued to one that ends with the clean pair live and no marker, transition file, seal or container, after exactly `Weight + 9` changes; `ResetRuns.ResumeNext` states it of the code |
| `PowerLoss.StepSound` | src/cas/projection_store.rs:3224-3274 | a strict step keeps the invariant that nothing is gone while a Prepared marker may return |
| `PowerLoss.LossRecognised` | src/cas/projection_store.rs:3311-3431 | whatever a loss of power brings back in a sound state, recovery recognises it |
| `PowerLoss.PowerRunSound` | src/cas/projection_store.rs:385-531 | every state of every strict run with any number of crashes and losses of power is sound |
| `PowerLoss.NothingReturnsBeforeClear` | src/cas/projection_store.rs:1910-1941 | when the marker may be unlinked, a loss of power changes nothing |
| `PowerLoss.DestructionSafety` | src/cas/projection_store.rs:1810-1909 | every step that takes anything from the quarantine, a whole old entry included: every loss of power leaves a recognised state iff no Prepared marker may return, and some loss leaves a damaged one iff one may |
| `PowerLoss.UnrecognisedLoss` | src/cas/projection_store.rs:3433-3457 | such a loss: the Prepared marker and the clean pair live beside a quarantine that lacks something of the old tree |
| `PowerLoss.GapReachable` | src/cas/projection_store.rs:3283-3309 | a run reaches maintenance with no transition file, an untouched quarantine and a Prepared marker that may return |
| `PowerLoss.GapLosesRecovery` | src/cas/projection_store.rs:1705-1941 | two crashes and one loss of power can end any reset damaged in that way; `ResetRuns.GapRefused` states the refusal |
| `ResetChecks.PublishedFacts` | src/cas/projection_store.rs:3034-3139 | everything recovery relies on follows from what the publisher checked |
| `ResetChecks.RemainderIdentity` | src/cas/projection_store.rs:2304-2312 | a restricted, partly emptied tree still answers to the identity the marker recorded |
| `ResetHistory.MaintenanceFacts` | src/cas/projection_store.rs:3713-3757 | the live test and the marker test pass in every state of maintenance, with or without the seal |
| `ResetChecks.DamagedExact` | src/cas/projection_store.rs:3433-3457 | a damaged disk without a pair fails preflight; one with a pair passes the post-exchange test iff identity and fingerprint miss the damage |
| `ResetChecks.DamagedRefused` | src/cas/projection_store.rs:3433-3457 | they never do for a tree that may be taken apart |
| `ResetChecks.DamageMissed` | src/cas/projection_store.rs:3433-3457 | an input where they do: a directory on another device |
| `ResetChecks.PreflightPasses` | src/cas/projection_store.rs:2821-2894 | preflight accepts every recognised state with a marker iff what is left of the old tree can be traversed |
| `ResetChecks.RunsPassPreflight` | src/cas/projection_store.rs:2821-2894 | all states of all runs pass preflight iff the old tree lies on one device and has no directory of mode 0000 |
| `ResetChecks.PreMutationExact` | src/cas/projection_store.rs:1623-1633 | before a change, trouble with the machine and nothing else is answered as unavailable |
| `ResetChecks.LayoutExact` | src/cas/projection_store.rs:2821-2894 | the layout test passes iff every protocol file is genuine, the container is the named private directory and no part is missing; another version, and nothing else, is answered as such |
| `ResetChecks.PreflightExact` | src/cas/projection_store.rs:2821-2894 | the whole preflight passes iff the layout does and, in maintenance, the quarantined entry is the named one and may be taken apart |
| `ResetChecks.LiveExact` | src/cas/projection_store.rs:3713-3757 | the live test passes iff the named inode is live with mode 0700 and both digests of the binding, and the seal is bound to them; another digest is invalid data |
| `ResetChecks.PostExchangeExact` | src/cas/projection_store.rs:3433-3457 | the post-exchange test passes iff the sealed pair is live and the fingerprinted entry is aside, each under its identity |
| `ResetChecks.TopologyExact` | src/cas/projection_store.rs:3576-3607 | the topology test passes iff live entry, quarantined entry and container are those of the Applied marker |
| `ResetChecks.AlteredRefused` | src/cas/projection_store.rs:3459-3476 | with another tree or pointer digest in the clean pair, the test of that phase fails as invalid data in every phase of a reset |
| `ResetStore.Vault.ResolveTransition` | src/cas/projection_store.rs:3283-3309 | removes the transition file only if it is the rebuilt Prepared marker; an error is `Indeterminate` exactly if the file is gone, and manual intervention only over another file; a removal is durable |
| `ResetStore.Vault.EmptyQuarantine` | src/cas/projection_store.rs:2118-2162 | takes the tree apart by protocol steps, whole or up to a failure; only an acceptable tree is emptied, and `mutated` means that something is gone |
| `ResetStore.Vault.CleanupQuarantine` | src/cas/projection_store.rs:2071-2088 | removes tree and name of an acceptable quarantine, synced; an error is `Indeterminate` exactly if something was changed |
| `ResetStore.Vault.RemoveQuarantineName` | src/cas/projection_store.rs:2162-2173 | removes the emptied entry and syncs the container |
| `ResetStore.Vault.RemoveSealFile` | src/cas/projection_store.rs:3802-3814 | removes exactly the expected seal, durably; the disk changes only if that seal is there; an error is `Indeterminate` exactly if it is gone |
| `ResetStore.Vault.RemoveContainerDirectory` | src/cas/projection_store.rs:2329-2351 | removes exactly the expected, empty container, durably; the disk changes only if it is that one; an error is `Indeterminate` exactly if it is gone |
| `ResetStore.Vault.ClearActiveMarker` | src/cas/projection_store.rs:3851-3928 | clears exactly the expected marker with its schema and hash, durably; ends the reset; an error is `Indeterminate` exactly if it is gone |
| `ResetStore.Vault.CheckQuarantine` | src/cas/projection_store.rs:1945-1992 | identity and traversal of the quarantined entry, both |
| `ResetStore.Vault.Preflight` | src/cas/projection_store.rs:2821-2894 | finds exactly the preflight verdict when no call fails, and never passes a disk the verdict rejects |
| `ResetStore.Vault.FinishChecks` | src/cas/projection_store.rs:1705-1776 | all tests before the first change of an attempt; they change nothing, sync the container, and pass only the named marker over the sealed pair, a bound seal and a quarantine that may be taken apart; on an altered reset they fail; without a failed call the error is manual intervention, or the format if a file is of another version |
| `ResetStore.Vault.SurveyContainer` | src/cas/projection_store.rs:1728-1776 | syncs and reads the container and what `SurveyContents` checks; another version of the seal is told apart |
| `ResetStore.Vault.SurveyContents` | src/cas/projection_store.rs:1740-1776 | passes only a live pair with the digests of the marker, a bound seal and a named, acceptable quarantine; a pair without a seal is manual intervention; changes nothing |
| `ResetStore.Vault.FinishPair` | src/cas/projection_store.rs:1811-1857 | the tree is gone and the container synced before anything else goes; an error is `Indeterminate` only if something was changed |
| `ResetStore.Vault.FinishSeal` | src/cas/projection_store.rs:1858-1890 | then the seal, durably, and only while the sealed pair is live |
| `ResetStore.Vault.FinishContents` | src/cas/projection_store.rs:1811-1890 | tree and seal in that order; the tree goes without a sync of the vault root before it |
| `ResetStore.Vault.FinishContainer` | src/cas/projection_store.rs:1810-1909 | tree, seal, container, each durable before the next; errors after a change are `Indeterminate` |
| `ResetStore.Vault.FinishRest` | src/cas/projection_store.rs:1810-1941 | everything after the transition file: an error other than `Indeterminate` means neither this nor an earlier part of the attempt changed anything |
| `ResetStore.Vault.FinishMarker` | src/cas/projection_store.rs:1914-1941 | last the marker, durably, and only while the sealed pair is live |
| `ResetStore.Vault.FinishInner` | src/cas/projection_store.rs:1705-1941 | one attempt on any disk: an error is `Indeterminate` exactly if the disk changed; success leaves the sealed pair live and no marker, transition file or opened container, durably; every change is a protocol step; without failed calls it ends done |
| `ResetStore.Vault.Finish` | src/cas/projection_store.rs:1692-1703 | the same, and the claims are released exactly after an error other than `Indeterminate`; on any disk nothing changes unless the live pair has the digests of the marker, a seal is bound to it and the quarantine may be taken apart; another digest is manual intervention without a failed call; with no transition file, the old tree there and a Prepared marker that may return, an attempt that changes anything is not strict |
| `ResetStore.Vault.CompleteMarkerExchange` | src/cas/projection_store.rs:3478-3508 | exchanges the markers or changes nothing; success means that both files held these valid markers and the entries lie as Applied says, and leaves Applied durable and no transition file |
| `ResetStore.Vault.AfterMarkerExchange` | src/cas/projection_store.rs:3478-3508 | the transition file goes only after both markers and the topology were verified and the exchange was synced |
| `ResetStore.Vault.UnlinkTransitionFile` | src/cas/projection_store.rs:3821-3835 | unlinks the transition file, durably on success |
| `ResetStore.Vault.ReplaceMarker` | src/cas/projection_store.rs:3224-3274 | turns Prepared into Applied, starting only from that valid Prepared marker, and syncs the transition file before the exchange; at every failure the reset is prepared or in maintenance |
| `ResetStore.Vault.RecoverTransition` | src/cas/projection_store.rs:3352-3372 | with a transition file the pairs are exchanged already, so only the markers are, and only if both files are the expected ones; success leaves the sealed pair live; refuses unchanged what fails the post-exchange test |
| `ResetStore.Vault.RecoverExchange` | src/cas/projection_store.rs:3374-3415 | without one: exchanges the pairs exactly if they are not exchanged yet, and nothing if the live entry is another; goes on without an exchange only if the pairs are exchanged; refuses a staged pair of other digests unchanged |
| `ResetStore.Vault.ExchangeUnexchanged` | src/cas/projection_store.rs:3387-3413 | on any disk exchanges only a staged pair with the digests of the marker for a live entry with its fingerprint, and then syncs both directories; another digest is refused unchanged, without a failed call as manual intervention |
| `ResetStore.Vault.RecoverPairs` | src/cas/projection_store.rs:3374-3431 | exchange, verification and marker in one; success on any disk leaves the sealed pair live, the fingerprinted entry aside and the topology of the marker; errors other than `Indeterminate` changed nothing; refuses unchanged what fails the post-exchange test |
| `ResetStore.Vault.AfterExchange` | src/cas/projection_store.rs:3415-3431 | the marker advances only over the sealed pair, the fingerprinted entry and the topology it names; errors after an exchange are `Indeterminate` |
| `ResetStore.Vault.RecoverPrepared` | src/cas/projection_store.rs:3311-3431 | takes a reset from any prepared state to maintenance and returns the Applied marker the publisher would have written; on any disk success means that the live pair has both digests of the binding, and the pairs are exchanged only if live fingerprint and staged digests are those of the marker; refuses every altered disk, every damaged disk of a tree that may be taken apart and every container of another identity |
| `ResetStore.Vault.RecoverMarker` | src/cas/projection_store.rs:412-459 | reads the marker and takes a prepared reset to maintenance; succeeds only over a valid marker and a genuine layout, and tells another version from a corrupt or missing marker; the refusal of damaged and altered disks starts here |
| `ResetStore.Vault.RecoverClaimed` | src/cas/projection_store.rs:411-531 | recovers any interrupted reset to the capability to finish it, without failed calls always; success on any disk means that the live pair has both digests of the marker |
| `ResetStore.Vault.OpenCapability` | src/cas/projection_store.rs:459-489 | a capability is given only over a live pair with both digests of the marker and the container it names; each refusal has its cause |
| `ResetStore.Vault.Recover` | src/cas/projection_store.rs:385-531 | a second claim changes nothing; the claims stay set exactly on success or when the outcome is unknown; on any disk success means that the live pair has the identity, mode and both digests of the marker; on a disk where one of them is altered, or damaged under a tree that may be taken apart, it never succeeds, changes nothing, releases the claims and without failed calls answers manual intervention |
| `ResetStore.Vault.Resume` | src/cas/projection_store.rs:385-531 | wherever a reset was interrupted, one process without failed calls ends it durably, by protocol steps only; and when those steps are not strict |
| `ResetStore.Vault.TargetPublishes` | src/cas/projection_store.rs:681-1046 | every sealed target on a settled vault publishes a reset to which all of the above applies |
| `ResetStore.Vault.PersistPrepared` | src/cas/projection_store.rs:3034-3139 | tells "not written" from "may be written"; never replaces a marker; success is a durable Prepared marker |
| `ResetStore.Vault.PublishExchange` | src/cas/projection_store.rs:847-940 | exchanges the pairs, syncs both directories, verifies what is live |
| `ResetStore.Vault.PersistApplied` | src/cas/projection_store.rs:3141-3170 | advances to the Applied marker of the observed identities |
| `ResetStore.Vault.PublishReplacement` | src/cas/projection_store.rs:681-1046 | `FailedIo` changed nothing; success is durable maintenance with the old tree whole in quarantine |
| `ResetStore.Vault.PublishAbsent` | src/cas/projection_store.rs:681-1046 | publication where nothing is live: the pair moves out of its container, durably on success, and no marker is touched |
| `ResetStore.Vault.Publish` | src/cas/projection_store.rs:681-1046 | `FailedIo` leaves live entry and markers alone and releases the claims; `PublishedButUnsynced` keeps claims and container; the container is deleted only if no marker was written, and then without a failed call it is gone; on any disk only a target with the digests of its seal is published, over the live entry it expects, and what is live after a success has those digests; without a failed call anything else is `FailedIo` |
| `ResetHistory.UnsyncedNotStrict` | src/cas/projection_store.rs:3283-3309 | a history in which the disk changes before the vault root is synced is not strict while a Prepared marker may return |
| `ResetRuns.PathRun` | src/cas/projection_store.rs:1705-1941 | what a process does after a run continues the run |
| `ResetRuns.PathPowerRun` | src/cas/projection_store.rs:1705-1941 | what a strict process does continues a run with losses of power |
| `ResetRuns.AnyProcesses` | src/cas/projection_store.rs:385-531 | any number of processes, each stopped anywhere: the old tree goes only once the reset is in effect, changes made and left add up to a constant, and the vault holds the reset in a state to go on from |
| `ResetRuns.AnyStrictProcesses` | src/cas/projection_store.rs:385-531 | the same processes with losses of power in between, if strict, leave every state sound |
| `ResetRuns.GapRefused` | src/cas/projection_store.rs:3311-3431 | two crashes and one loss of power end any reset of a tree that may be taken apart on a disk that fails preflight or the post-exchange test |
| `ResetRuns.LossReady` | src/cas/projection_store.rs:3283-3309 | after a loss of power the next process is strict |
| `ResetRuns.PublishFirst` | src/cas/projection_store.rs:681-1046 | publishing is the first such process, wherever it stops |
| `ResetRuns.ResumeNext` | src/cas/projection_store.rs:385-531 | after any such processes a resuming one is another, wherever it stops; without failed calls it ends the reset, after exactly `Weight + 9` changes by all of them together |
| `Claims.NextInv` | src/cas/projection_store.rs:533-594 | every move of every thread keeps the mutex and claim invariant |
| `Claims.HandsInv` | src/cas/projection_store.rs:1615-1621 | so does handing a capability from one thread to another |
| `Claims.RunInv` | src/cas/projection_store.rs:2736-2748 | so it holds in every state of every interleaving |
| `Claims.SingleWriter` | src/cas/ledger_store.rs:216-254 | at most one capability exists; the claims agree whenever the namespace mutex is free and are set while a capability exists; none is set while an inspection runs |
| `Migration.MigrationVault.SetMode` | src/cas/offline_migration.rs:572-594 | changes one mode and nothing else, only on an entry of the expected kind |
| `Migration.MigrationVault.ApplyMode` | src/cas/offline_migration.rs:572-594 | one mode out of those asked for; contents and the other modes stay, and nothing is lost meanwhile |
| `Migration.MigrationVault.ApplyModes` | src/cas/offline_migration.rs:559-570 | sets every mode asked for or fails; contents never change |
| `Migration.MigrationVault.Harden` | src/cas/offline_migration.rs:536-557 | makes the staged legacy vault private throughout: 0700 for every directory and 0600 for every file |
| `Migration.ShieldedBits` | src/cas/offline_migration.rs:543-550 | bit by bit: the owner reads and writes everything and enters directories, nobody else has any permission |
| `Migration.PrivateBackupExact` | src/cas/offline_migration.rs:596-611 | the test of a private backup passes iff the permission bits, kinds and contents are those hardening leaves, and that tree is private |
| `Migration.MigrationVault.WriteEvidence` | src/cas/offline_migration.rs:500-516 | writes the evidence file only where there is none |
| `Migration.MigrationVault.RollbackExchange` | src/cas/offline_migration.rs:745-759 | `RolledBack` means vault and target are back where they were |
| `Migration.MigrationVault.RestoreAndExchange` | src/cas/offline_migration.rs:559-570 | restores every mode, then exchanges back |
| `Migration.MigrationVault.RollbackAfterEvidence` | src/cas/offline_migration.rs:761-778 | removes the evidence file, then restores and exchanges back; conserves in every state, with failures or without, unless the legacy vault has a file of that name |
| `Migration.MigrationVault.RollbackFinalized` | src/cas/offline_migration.rs:780-792 | the same from the final backup path |
| `Migration.MigrationVault.FinishPublication` | src/cas/offline_migration.rs:307-335 | harden, evidence, backup; every failure rolls back; conserves in every state unless the legacy vault has a file of the evidence name |
| `Migration.MigrationVault.Publish` | src/cas/offline_migration.rs:265-335 | in every state the root holds a whole vault and the legacy vault is whole in exactly one place that is not about to be deleted, and with modes 0700 and 0600 throughout while it has the public backup name; a rollback restores every mode; all of it unless the legacy vault has a file of the evidence name, and then not |
| `Migration.EvidenceVerifies` | src/cas/offline_migration.rs:518-534 | the backup a publication writes passes its own verification |
| `Migration.EvidenceExact` | src/cas/offline_migration.rs:518-534 | and no other tree does |
| `Migration.LostConserved` | src/cas/offline_migration.rs:761-778 | a legacy vault whose own evidence entry was removed is whole nowhere |
| `Ledger.LedgerStorage.PublishActive` | src/cas/ledger_store.rs:513-534 | the active slot only ever holds the empty value or a complete value whose exchange was made, exactly those not answered `NotPublished`; `NotPublished` leaves it, `PublishedButUnsynced` has replaced it and a loss of power shows one of the two, success is durable and keeps the previous value as candidate |
| `Ledger.LedgerStorage.LosePower` | src/cas/ledger_store.rs:388-444 | whatever state a loss of power brings back satisfies the same invariant |
| `Ledger.LedgerStorage.PutImmutable` | src/cas/ledger_store.rs:1006-1034 | bytes under a hash never change; an equal put is a no-op, a different one or a malformed hash fails |
| `Ledger.LedgerStorage.ListHashes` | src/cas/ledger_store.rs:482-509 | lists exactly the objects once each in byte order, or fails, always so above the limit or with a malformed name |
| `Ledger.Sort` | src/cas/ledger_store.rs:507-507 | the same hashes in byte order |
| `Ledger.LeqExact` | src/cas/ledger_store.rs:507-507 | byte order: the first difference decides and a prefix comes first |
| `Ledger.HashExact` | src/cas/ledger_store.rs:987-1000 | a hash is 64 lower-case hexadecimal digits |
| `Ledger.LedgerStorage.RemoveUnreferenced` | src/cas/ledger_store.rs:548-576 | success, which needs every call to succeed, leaves exactly the referenced objects and counts the rest; above the limit nothing goes; no failure removes a referenced object |
| `CasStorage.ObjectStore.Put` | src/cas/storage.rs:126-150 | stores an object under its digest once; a later put under the same cid changes nothing; a failure at any call leaves the stored objects as they were |
| `CasStorage.ObjectStore.GetRaw` | src/cas/storage.rs:166-181 | on any root nothing is returned whose cid or digest is not the one asked for, and each error has its exact cause; in a store that only puts, it returns the first object put under a cid, and exactly then, and a valid cid never put is missing |
| `CasStorage.ObjectStore.ListCids` | src/cas/storage.rs:190-217 | lists exactly the cids put so far, once each, past temporary files and private names |
| `CasStorage.HoldsObject` | src/cas/storage.rs:330-334 | the split of a cid into shard and name keeps different objects apart |
| `CasStorage.CidExact` | src/cas/storage.rs:87-95 | a cid is at least two hexadecimal digits of either case |
| `CasStorage.HiddenExact` | src/cas/storage.rs:190-217 | a listing passes over exactly the names of interrupted writes and the names that start with an underscore |
| `AccessLog.SumTouch` | src/cas/storage.rs:242-252 | one access adds one to the accesses the log accounts for |
| `AccessLog.Evict` | src/cas/storage.rs:255-262 | evicts exactly a tenth, and nothing evicted was used later than anything kept |
| `AccessLog.Log.RecordAccess` | src/cas/storage.rs:237-273 | logged and evicted accesses always add up to the total; the object accessed has this time and one access more, every other entry kept is unchanged, so over any run a kept entry has the latest time; a tenth goes exactly when the limit is passed; a log within the limit stays within it, a larger one shrinks by at least 9999 at each access |
| `ContextLoader.JoinRoundTrip` | src/fs/context_loader.rs:167-175 | splitting joined words gives the words back |
| `ContextLoader.WhiteExact` | src/fs/context_loader.rs:167-175 | white space is the 25 code points of Unicode |
| `ContextLoader.SplitKeeps` | src/fs/context_loader.rs:167-175 | the words hold every character that is not white space, in order, and no other |
| `ContextLoader.SummaryWords` | src/fs/context_loader.rs:167-175 | the heuristic summary has exactly the first ten words, a mark and the last ten, so its estimate is at most 15 |
| `ContextLoader.CutExact` | src/fs/context_loader.rs:309-315 | slicing a long enough text by bytes panics iff the position is inside a character |
| `ContextLoader.WidthExact` | src/fs/context_loader.rs:309-315 | every UTF-8 encoding of a character, section 3 of RFC 3629, has its width in bytes |
| `ContextLoader.Utf8` | src/fs/context_loader.rs:309-315 | and every character has one |
| `ContextLoader.TruncatedPrefix` | src/fs/context_loader.rs:309-315 | what is cut is a prefix of exactly 8000 bytes, or the whole text |
| `ContextLoader.PanicExact` | src/fs/context_loader.rs:262-307 | loading L1 panics iff the cid does not split, or nothing is stored, no summarizer answers and byte 8000 lies inside a character |
| `ContextLoader.Loader.LoadL0` | src/fs/context_loader.rs:177-251 | caching never changes what any layer of any object reads as; degraded exactly if it was neither cached nor stored and no summarizer made it; panics exactly on an uncached cid that does not split |
| `ContextLoader.Loader.LoadL1` | src/fs/context_loader.rs:262-307 | the same for the disk cache of L1; panics iff the cid does not split or the text is cut inside a character |
| `ContextLoader.Loader.Load` | src/fs/context_loader.rs:118-126 | L2 is the stored text or missing; L1 and L0 are what is cached or stored, or the answer of the summarizer for that layer; tokens are three quarters of the words; caching changes no text |
| `ContextBudget.CrashExact` | src/fs/context_budget.rs:81-112 | a candidate panics iff its full text does not fit and its L1 cannot be loaded |
| `ContextBudget.ChoiceExact` | src/fs/context_budget.rs:81-112 | L2 is chosen iff its estimate is in 1..=remaining; otherwise, short of a panic, L1 is chosen iff it fits, L0 iff L1 does not and it fits, and nothing is chosen iff neither does, below 2000 and from 2000 on, where an estimate of 0 counts as fitting |
| `ContextBudget.EmptyItemExact` | src/fs/context_budget.rs:81-112 | exactly when content with an estimate of 0 is included |
| `ContextBudget.MissingCandidate` | src/fs/context_budget.rs:81-112 | an object stored nowhere becomes an empty L1 item iff at least 2000 tokens are left, unless its cid does not split |
| `ContextBudget.WithinBudget` | src/fs/context_budget.rs:34-78 | the total never exceeds the budget and items keep the order of the candidates |
| `ContextBudget.Extends` | src/fs/context_budget.rs:34-78 | more candidates only append, and see exactly the budget the earlier ones left |
| `ContextBudget.Reached` | src/fs/context_budget.rs:34-78 | every candidate by position: what it adds to the items of those before it, or that it ends the assembly |
| `ContextBudget.PanicsExact` | src/fs/context_budget.rs:34-78 | an assembly panics iff some candidate it reaches does |
| `ContextBudget.AssemblyPanics` | src/fs/context_budget.rs:34-78 | iff it reaches a candidate whose full text does not fit and whose L1 is cut inside a character or whose cid does not split |
| `ContextBudget.WidePanics` | src/fs/context_loader.rs:309-315 | a text of three-byte characters without white space, longer than 8000 bytes and without summary, is such a candidate at every budget |
| `ContextBudget.PickLayer` | src/fs/context_budget.rs:81-112 | the caching chain of loads picks what `ChoiceExact` states of the texts alone, panics included |
| `ContextBudget.Take` | src/fs/context_budget.rs:44-66 | loads the chosen layer, or panics exactly where the choice does; below 2000 nothing is reported as degraded |
| `ContextBudget.Assemble` | src/fs/context_budget.rs:34-78 | the loop over a caching loader returns the run over the texts as they were at the start, with their contents and total, and panics exactly where that run does |

## Left out

- Real system calls: `openat2`, `renameat2`, `fchmod`, `flock` and inode re-validation between a test and its use appear as single calls that succeed or fail; another process changing the vault meanwhile is not modelled.
- Temporary files that a crash leaves before a rename, and their cleanup, in the vault root, the ledger and a migration backup.
- Marker.MarkerDeterminism: transaction UUIDs, base-name syntax and the hexadecimal form of digests are not modelled; digests are values that are equal exactly when domain and content are.
- Marker.SealOf: the exact clean-genesis inventory and the required directories that the pair digest also demands are not modelled, only its limits, kinds and modes.
- FileTree.FingerprintImpliesQuarantine: the limit on the total bytes that the live fingerprint reads, the race tests between its two passes, and sizes of directories are not modelled, so it is stated for more trees than the source accepts; a directory of mode 0000 gets past the fingerprint only where the process may override modes, so that half concerns privileged publishers.
- ResetChecks.RunsPassPreflight: for a publisher that may not override modes the condition on directories of mode 0000 always holds, for the same reason.
- ResetRuns.PublishFirst: a publication that ends `FailedIo` has changed nothing, and then drops the staged container; that is no reset and begins no lifetime.
- Quarantine.CleanupDirectory: names go in any order, not in sorted order; the contract holds for each.
- PowerLoss.PowerRunSound: a directory loses its newest changes first, and the exchange of the pairs is one record for both directories; file contents are durable because every file is synced before it is renamed.
- The preparation of a target (staging, copying, sealing) before publication: a target is sealed or it is not.
- Claims.SingleWriter: mutex poisoning is not modelled.
- Migration.MigrationVault.Publish: preparing and sealing the copy, the lock file and the path of the backup are not modelled; a tree is a map from relative paths to kind, mode and content.
- Ledger.LedgerStorage.ListHashes: entries that are not private regular files.
- CasStorage.ObjectStore.Put: the store starts empty and nothing else writes under its root; JSON encoding is the identity, and the digest is any function to 64 hexadecimal digits.
- AccessLog.Log.RecordAccess: wrap-around of 64-bit counters, and writing the log to disk every 100 accesses or every minute.
- ContextLoader.Loader.LoadL0: the summarizer is any fixed function and does not panic, and files do not change meanwhile.
- ContextBudget.ChoiceExact: stated for fewer than `usize::MAX` tokens left; at that limit L2 is taken unseen.
- Adaptive budgets, retrieval fusion, search, memory tiers, scheduling, permissions, the daemon and its protocols: outside this model.
