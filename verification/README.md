# zimaos-monitor: verified model

A Dafny model of the parts of zimaos-monitor that carry state, protocol or grammar, with proofs that
hold for every input, every failure and every interleaving. `dafny verify dfyconfig.toml` checks all of
it.

| module | what it models |
|---|---|
| `Text` | splitting on a separator, decimal numerals, trimming, case folding as the code needs it |
| `Topics` | the discovery topic filter, the discovery topic parser, and topic filter matching by section 4.7 of MQTT 3.1.1 |
| `Entities` | which Home Assistant entities an installation has, and their unique IDs and topics |
| `Discovery` | the retained store (section 3.3.1.3 of MQTT 3.1.1) and the classification of records |
| `Startup` | what a complete startup leaves on the broker |
| `Fleet` | any number of installations and other clients on one broker, steps interleaved, messages lost, processes restarted |
| `FleetStartup` | the startup theorem of one installation while any others run |
| `MqttClient` | the client program among other installations and other clients: every step it takes is one of the fleet model |
| `Collect` | the concurrent collection of retained messages |
| `Versions` | the version grammars, bounded parsing and the version order |
| `Artifact` | asset selection, bounded download, checksum, extraction of the binary |
| `Updater` | the update transaction as a transition system of any number of processes, signals, a moving feed, and other programs that replace the executable or restart the service |
| `Apply` | `Apply` as an imperative program among all of these, with the candidate obtained by `Artifact`; every step is an event of the transition system |
| `Installer` | `install.sh` as a state machine with a history of every state it can be stopped in |
| `FirstInstall` | any number of concurrent first installations and programs that create the configuration meanwhile; the commit of `Installer` is a run of it |
| `BrokerAddress` | accepted hosts and ports, normalisation, the printed URI |
| `SetupDialogue` | the setup dialogue over every script of terminal inputs |
| `Identity` | the machine ID, the base32 token, identity resolution and its warnings |

Conventions. A Go string is a sequence of Unicode scalar values. What the outside world decides - a
failing command, a lost message, which ready branch a `select` takes, how many bytes a read returns - is
a nondeterministic choice, an action of a transition system, or an argument that is quantified over.
Methods follow the code; each is proved against a function or predicate, and the theorems are lemmas
about those. Where a claim is true only under a condition, the lemma is an equivalence.

Results worth knowing:

- A disk name with a `/` in it publishes a topic that the device's own cleanup filter never matches, so
  the record cannot be found and purged later: of the topics that a restart no longer publishes, exactly
  these stay (`Startup.RestartResidueExactly`, `Startup.PublishedTopicMatchesExactly`). Disk names that
  differ only by space and underscore share unique IDs and topics (`Entities.NoCollisionExactly`).
- A device ID of several topic levels publishes into the node named by its first level
  (`Topics.NodeLevelExactly`, `Topics.SlashedIDLandsElsewhere`).
- `install_fresh` calls `prepare_first_configuration` in an `if` condition, where the shell ignores a
  failing `mktemp`. `WORK_DIR` is then empty, the candidate configuration is `/config.yaml`, and a
  completed installation leaves that copy behind; it does so exactly in that case. If such a copy is there
  from before and the user declines, the script takes it for the candidate and installs and starts a
  configuration that nobody confirmed (`Installer.UnconfirmedCandidate`). An installed configuration was
  confirmed in the same run exactly when there was a work directory or no earlier `/config.yaml`
  (`Installer.Script.InstallFresh`, `Installer.Script.RunScript`).
- A checksum file is accepted in either letter case, if its first field ends within the first 4097 bytes
  (`Artifact.PublishedChecksumExactly`), a digest from the release metadata only if no digit is in upper case
  (`Artifact.FeedDigestExactly`).
- One context serves all commands of an update, the rollback's included. While the candidate is watched or
  rolled back, some run still ends as rolled back exactly if the context has not ended
  (`Updater.RolledBackExactly`). If it ends in the health delay, the service stays restarted from the
  candidate even where the old binary is put back on the path (`Updater.CancelledDelayStrands`), and such a
  world is reached wherever there is a newer release (`Updater.StrandedIsReached`).
- `install.sh` does not take the update lock. What it puts on the path while an updater is running can be
  overwritten by that updater in some run exactly if the updater has not fetched yet, its context lives, and
  a newer release with a binary is or may come to be in the feed; or it has fetched such a release, not yet
  verified a candidate, and its context lives; or it has a verified candidate and has neither given up, nor
  found it healthy, nor restored the old binary (`Updater.InstallOverwrittenExactly`). An updater that has
  only been started counts as well: whoever holds the lock may stop.
- A version whose numbers overflow 64 bits matches the stable pattern but is never updated and never
  installed (`Versions.OverflowIsIncomparable`).
- README.md:46 of the repository ties the ZimaOS update entity to `updates.enabled`; the code always
  publishes it (internal/mqtt/autodiscovery.go:271-278) and the model follows the code.

## Model

| member | source | states |
|---|---|---|
| Topics.FilterMatchesExactly | internal/mqtt/autodiscovery.go:338-343 | for a safe device ID, a topic matches the generated filter iff it has five levels, the first `homeassistant`, the third the ID, the last `config` |
| Topics.ParserAcceptsExactly | internal/mqtt/autodiscovery.go:345-356 | the parser yields the device's node iff the filter matches and no level is empty |
| Topics.ParsedPartsRebuildTopic | internal/mqtt/autodiscovery.go:345-356 | the parsed parts put together give the topic back |
| Topics.NodeLevelExactly | internal/mqtt/autodiscovery.go:265 | the third level of a published topic is the device ID iff the ID has no `/` |
| Topics.SlashedIDLandsElsewhere | internal/mqtt/autodiscovery.go:265 | an ID `head/tail` publishes into the node `head` |
| Topics.OwnTopicMatchesExactly | internal/mqtt/autodiscovery.go:338-343 | a published topic matches the device's filter iff its entity part is one level |
| Entities.NoCollisionExactly | internal/mqtt/autodiscovery.go:79-289 | all unique IDs, and all topics, are pairwise distinct iff the disk names stay distinct after spaces become underscores |
| Entities.PublishedTopicsAreOwn | internal/mqtt/autodiscovery.go:247-289 | every published topic of a one-level device ID lies in that node |
| Entities.PublishedTopicsUnderFilterExactly | internal/mqtt/autodiscovery.go:247-289 | all published topics lie under the device's filter iff no disk name contains `/` |
| Entities.PublicationsExactly | internal/mqtt/autodiscovery.go:260-289 | record i has the topic, unique ID, state topic and device of sensor i; then come ZimaOS and, if enabled, the program, and nothing else |
| Entities.MonitorTopicExactly | internal/mqtt/autodiscovery.go:252-254 | the topic of the program's own update entity is among those published iff the setting is on; that of ZimaOS always |
| Discovery.PlanDiscoveryCleanup | internal/mqtt/autodiscovery.go:358-401 | in whatever order the map is visited, the plan lists exactly the stale and the ambiguous topics, each once, none in both lists; stale are exactly the undesired topics of five non-empty levels with the device ID third whose payload is not empty and decodes to origin `zimaos-monitor` with the device ID among the identifiers |
| Discovery.StaleExactly | internal/mqtt/autodiscovery.go:366-397 | a record is stale iff its topic lies in the node, nothing claims it, and its payload names this program as origin and the device among its identifiers |
| Discovery.AmbiguousExactly | internal/mqtt/autodiscovery.go:366-396 | a record is ambiguous iff it is no discovery topic, or lies unclaimed in the node with a payload that does not name both |
| Discovery.UnprovenSurvives | internal/mqtt/autodiscovery.go:403-427 | a record that does not name this program and this device stays in the store unchanged through purge and announcements, unless its topic is announced |
| Discovery.HasIdentifier | internal/mqtt/autodiscovery.go:387-392 | true iff the device ID is among the identifiers |
| MqttClient.Client.Publish | internal/mqtt/client.go:76-82 | one publish attempt: the retained store changes as section 3.3.1.3 of MQTT 3.1.1 says if the message arrives, and not otherwise, whatever the token reports |
| MqttClient.Client.CollectRetained | internal/mqtt/client.go:84-156 | as the cleanup uses it: a failed scan, or the last retained payload per topic over the deliveries handled, live ones among them, each retained one a record under the filter that came in while others moved; if everybody keeps to their node, these are records of the own node at the start |
| MqttClient.Client.PurgeStaleDiscovery | internal/mqtt/autodiscovery.go:403-427 | deletes, once each, exactly the stale topics of the scan, going on after errors; nothing without a filter or a scan |
| MqttClient.Client.PublishDiscovery | internal/mqtt/autodiscovery.go:246-292 | purge, with the desired set built before, then the announcements in order up to the first error; together with every step of others before, between and after them this is a run of the fleet, and if everybody keeps to their node, the own node is the replay of the call's writes and records that do not prove this program and device their owner stay; a purge without a scan means that the scan failed or the ID is unsafe |
| MqttClient.Client.OwnNodeSince | internal/mqtt/autodiscovery.go:246-292 | between any two points of the program's run, the own node changes by the own messages alone, however others move |
| MqttClient.Client.AloneSince | internal/mqtt/autodiscovery.go:246-292 | while nobody else moves, the own messages are all that happens to the whole broker, for every device ID |
| MqttClient.CompleteCallIsExact | internal/mqtt/autodiscovery.go:246-292 | a call whose scan saw every record and whose writes all arrived leaves the node exact, whoever else uses the broker |
| MqttClient.Client.AnnounceAll | internal/mqtt/autodiscovery.go:260-291 | announces sensors, then the ZimaOS entity, then the monitor entity if enabled, and stops at the first error |
| MqttClient.Client.ListSensors | internal/mqtt/autodiscovery.go:79-241 | the list grown group by group has exactly 10 + 4 per disk + 1 per core sensors and is the indexed list |
| MqttClient.Client.DesiredTopics | internal/mqtt/autodiscovery.go:246-254 | the desired set is exactly the set of topics of the announcements |
| Startup.RunEffect | internal/mqtt/autodiscovery.go:246-292 | a complete run removes the stale records, stores the announcements and leaves every other record as it was |
| Startup.StartupIsExact | internal/mqtt/autodiscovery.go:246-292 | afterwards the filter holds exactly the desired topics and the records that were ambiguous, these unchanged; outside the filter nothing changed |
| Startup.SecondRunPurgesNothing | internal/mqtt/autodiscovery.go:256-258 | a second run with the same configuration finds no stale topic, whatever the disks are called and the store held |
| Startup.PartialScans | internal/mqtt/autodiscovery.go:358-401 | stale and ambiguous topics of disjoint snapshots add up; a partial scan never deletes more than a complete one |
| Startup.ReconfigurationLeavesNoTrace | internal/mqtt/autodiscovery.go:246-292 | after runs for two sets of publications the filter holds the second set and what neither claimed and is not provably the device's |
| Startup.RestartLeavesNoTrace | internal/mqtt/autodiscovery.go:246-292 | the same for two configurations of disks and cores of one device |
| Startup.ResidueExactly | internal/mqtt/autodiscovery.go:246-292 | after runs for two sets of publications a topic of the first set only is still there iff the filter does not match it |
| Startup.PublishedTopicMatchesExactly | internal/mqtt/autodiscovery.go:338-343 | the filter misses a published topic iff it is a reading of a disk with `/` in its name |
| Startup.RestartResidueExactly | internal/mqtt/autodiscovery.go:246-292 | of the topics that a restart with other disks or cores no longer publishes, exactly the readings of disks with `/` in their name stay, as announced |
| Fleet.StepStaysInNode | internal/mqtt/autodiscovery.go:403-427 | no step of an installation changes a record in another device's node |
| Fleet.StepSeesOwnNode | internal/mqtt/autodiscovery.go:403-427 | a step depends on, and acts on, the installation's own node only |
| Fleet.NonInterference | internal/mqtt/autodiscovery.go:246-291 | in every interleaving of scans, purges, announcements, losses, restarts with other settings and writes of other clients, the node and the state of an installation are what its own steps alone produce |
| Fleet.ForeignRecordsSurvive | internal/mqtt/autodiscovery.go:403-427 | a record in no installation's node survives every run unchanged unless another client writes it |
| FleetStartup.StartupInCompanyIsExact | internal/mqtt/autodiscovery.go:246-292 | a faultless startup leaves the node as exact as alone, however the steps of other installations and clients fall between its own |
| Collect.LastRetainedExactly | internal/mqtt/client.go:95-102 | the collected map has a topic iff a retained message for it was handled, with the payload of the last one |
| Collect.Collector.HandlerStore | internal/mqtt/client.go:95-102 | the critical section stores a retained payload and ignores a live message |
| Collect.Collector.HandlerSignal | internal/mqtt/client.go:103-106 | the send fills the one slot or is dropped |
| Collect.Collector.CollectRetained | internal/mqtt/client.go:109-155 | for every schedule: the result is the last retained payload per topic of the handlers before the final lock, and there is one iff subscribing and unsubscribing succeed; the loop runs at most retained deliveries + 1 times; the idle timer ends it only after a retained delivery and an idle period since the last signal, the total timer only when it has fired |
| Versions.FindStableExactly | internal/selfupdate/release.go:18 | the matcher finds exactly the groups of the stable pattern |
| Versions.IsDevelopmentExactly | internal/selfupdate/release.go:19 | the matcher accepts exactly the development pattern |
| Versions.ParseVersion | internal/selfupdate/release.go:164-178 | the loop parses the three groups, or nothing when one of them overflows |
| Versions.ParsedExactly | internal/selfupdate/release.go:164-178 | a string parses to a triple iff it is in the stable grammar, its numerals denote the triple and each fits in 64 bits |
| Versions.FormatThenParse | internal/selfupdate/release.go:164-178 | a printed triple, with or without `v`, parses to itself |
| Versions.IsNewer | internal/selfupdate/release.go:147-162 | the loop decides the lexicographic order, and `dev` and development builds as the code does |
| Versions.NewerExactly | internal/selfupdate/release.go:147-162 | a release is newer iff it is a stable version with numbers below 2^64 and the current text is `dev`, a development build, or such a version with lower numbers, the leading ones deciding |
| Versions.OtherTextsAreNeverUpdated | internal/selfupdate/release.go:152-155 | nothing is newer than a text of any other form, such as a bare hash or a dirty tag |
| Versions.NewerIsStrictPartialOrder | internal/selfupdate/release.go:147-162 | irreflexive, asymmetric and transitive on all strings |
| Versions.IncomparableExactly | internal/selfupdate/release.go:147-162 | two strings that parse are incomparable iff their triples are equal |
| Versions.DevelopmentIsBelowEveryRelease | internal/selfupdate/release.go:152-155 | `dev` and every development build is below every version that parses |
| Versions.OverflowIsIncomparable | internal/selfupdate/release.go:164-178 | a stable version that overflows is above and below nothing |
| Artifact.LastNamedExactly | internal/selfupdate/release.go:135-143 | the asset that counts is the last one of its name |
| Artifact.FetchLatest | internal/selfupdate/release.go:102-145 | a release is returned iff the request succeeds with 200 and a body that decodes, and it is neither draft nor prerelease and its tag is stable; its URLs are those of the last assets of the two names, its digest that of the binary without a leading `sha256:`, and empty without the asset |
| Artifact.CopyLimited | internal/selfupdate/updater.go:160 | a limited copy takes the longest prefix within the limit, however reads cut the data, and fails only on a read error |
| Artifact.LowerHexExactly | internal/selfupdate/updater.go:187-194 | a lowered hexadecimal text equals the printed digest iff it decodes to the digest |
| Artifact.PublishedChecksumExactly | internal/selfupdate/updater.go:170-195 | a checksum file yields the printed digest iff its first field spells that digest in either letter case and, counted in UTF-8 bytes, the field ends within the first 4097, by the end of the file, the limit, or a white space character read whole |
| Artifact.FeedDigestExactly | internal/selfupdate/updater.go:197-212 | a digest text from the metadata passes for a digest iff it is its hexadecimal spelling without an upper-case digit |
| Artifact.VouchedExactly | internal/selfupdate/updater.go:51-73 | from feed to archive: a release vouches for the download iff that answers 200 within 200 MiB declared and delivered, and the feed, or if it has no digest the named checksum file, spells its digest |
| Artifact.LabelledDigestVouchesExactly | internal/selfupdate/release.go:139 | a feed digest `sha256:` and the printed digest vouches for exactly the archives with that digest |
| Artifact.GenuineExactly | internal/selfupdate/updater.go:75-85 | the candidate of a stable release is genuine iff the archive is vouched for, the candidate is the one entry called zimaos-monitor, a regular file of 1 byte to 100 MiB that reads whole, and it prints the version between white space |
| Artifact.BaseExactly | internal/selfupdate/updater.go:236 | an entry counts as the binary iff its path is a directory, the name and slashes |
| Artifact.WorkDirectory.DownloadFile | internal/selfupdate/updater.go:138-168 | unless a local operation fails, succeeds iff the answer is 200, declared and delivered sizes are within the limit and reading ends cleanly; the file then holds the body |
| Artifact.WorkDirectory.ExtractBinary | internal/selfupdate/updater.go:214-257 | unless a local operation fails, succeeds iff the archive ends cleanly and exactly one entry is the binary and it is a fully readable regular file of size 1 to the limit; the candidate then equals its bytes |
| Artifact.WorkDirectory.ObtainCandidate | internal/selfupdate/updater.go:50-85 | unless a local operation fails, succeeds iff a genuine candidate exists: checksum, only binary, own version equal to the release; the candidate is that one |
| Updater.RunKeepsInvariant | internal/selfupdate/updater.go:35-106 | in every run of any number of updaters the lock is held by exactly the process between acquire and close, and the disk is as that process's point in the transaction says unless another program replaced the executable under its lock |
| Updater.InterruptedUpdateIsRecoverable | internal/selfupdate/updater.go:87-105 | wherever the run stops, an updater undisturbed under its lock has left the whole old binary or the whole candidate, and the whole old one in `.previous` while the candidate is not accepted; nobody else is inside |
| Updater.ReturnClassFixesState | internal/selfupdate/updater.go:96-105 | each way of returning undisturbed fixes executable and, unless another program restarted the service, last restart or the two it can be, the backup or the part of the old executable it can be, and the number of systemctl calls or the two it can be; after the context has ended it is a rejection or a failed rollback |
| Updater.CancelledDelayStrands | internal/selfupdate/updater.go:259-281 | in every run after a context has ended during the health delay: the update can only end as a failed rollback or be killed; while it holds the lock undisturbed, the service was last restarted from the candidate unless another program restarted it, and path and backup are as before the rollback or as restored |
| Updater.RolledBackExactly | internal/selfupdate/updater.go:87-106 | at every point of an updater and in every world: some run of all updaters and the feed returns as rolled back iff it has done so, or its context lives and it can still come to replace the executable, is watching the candidate, or is rolling back; from the health delay on iff the context lives |
| Updater.StrandedIsReached | internal/selfupdate/updater.go:259-281 | from every world at rest with a newer release ahead, some run ends in a failed rollback with the old binary on the path, no backup, and the service last restarted from the newer candidate |
| Updater.ReplacingNeverLowers | internal/selfupdate/updater.go:47-49 | after any history of updates, rollbacks, kills, stale updaters, restarts of the service, and installs while no updater was running, an updater that replaces the executable does not lower the version on disk |
| Updater.SuccessNeverLowers | internal/selfupdate/updater.go:83-105 | an updater that returns success has left its candidate, not below what it found |
| Updater.InstallOverwrittenExactly | internal/selfupdate/updater.go:43-105 | in some run of all updaters and the feed, an updater overwrites what another program has put on the path iff it is before its fetch, in a live context, with a newer release of which a binary exists at or above the feed; or has fetched one, in a live context; or has a verified candidate and has not yet given up, found it healthy or restored the old binary |
| Updater.InstallBeforeRenameIsLost | internal/selfupdate/updater.go:87-94 | an install between backup and rename ends up neither on the path nor in the backup |
| Apply.Host.Apply | internal/selfupdate/updater.go:35-106 | among other updaters, releases, installers, restarts of the service and signals: the call is a run of the transition system, and if it held the lock undisturbed, its return value fixes executable, backup, systemctl calls and, unless another program restarted the service, last restart; the answers of its own commands and local operations decide the return: success iff restart and is-active answered true, rolled back iff restart or is-active failed, the backup was restored and the second restart answered true, and so on; a rejection has a reason (context, local operation, no newer release or no genuine candidate), anything else put on the path the genuine candidate of a newer release |
| Apply.Host.FetchRelease | internal/selfupdate/updater.go:43-49 | goes on iff the answer shows a stable release that is newer, in a live context |
| Apply.Host.CopyFile | internal/selfupdate/updater.go:291-310 | the backup is the whole executable that was opened, or the update gives up |
| Apply.Host.RestartAndCheck | internal/selfupdate/updater.go:259-271 | healthy iff restart and is-active both answered true, in a live context; otherwise a failed restart, a context that ended in the delay, or a failed is-active |
| Apply.Host.Rollback | internal/selfupdate/updater.go:273-281 | if the backup can be put on the path, one restart is asked for and its answer decides between rolled back and failed; otherwise failed without one; rolled back only in a live context, with the service restarted from what is on the path, which is the backup unless another program replaced it |
| Apply.EveryPrefixIsSound | internal/selfupdate/updater.go:35-106 | stopping after any number of the recorded events leaves a world in which the invariant of all updaters holds |
| Installer.SpelledApart | scripts/install.sh:124 | the files of the script and their staged copies of all process IDs have different names |
| Installer.CleanupLeavesNoResidue | scripts/install.sh:42-50 | from every tidy state the trap removes all staged and work files and nothing else |
| Installer.ConfigurationNeverChanges | scripts/install.sh:256-267 | in a good history a configuration keeps its bytes from the moment it exists |
| Installer.Script.StageFile | scripts/install.sh:120-130 | success puts exactly the new content on the path; every state on the way is tidy and whole |
| Installer.Script.BackupUpgradeAssets | scripts/install.sh:171-187 | flags and backups describe the assets found, and the two service questions are asked |
| Installer.Script.StageReleaseAssets | scripts/install.sh:132-137 | success changes binary, unit and the removed legacy unit, nothing else |
| Installer.Script.RollbackUpgrade | scripts/install.sh:189-212 | succeeds iff no command fails; then contents or absence of both assets are restored and systemctl is asked to reload, to enable or disable and to restart or stop as the service was, whatever it answers |
| Installer.Script.InstallUpgrade | scripts/install.sh:256-267 | the configuration is unchanged in every outcome; the script stops iff a command fails; otherwise it is complete, with both new assets, iff every step of the activation answers true, and else both earlier assets are back and systemctl is asked for the state that the two questions found |
| Installer.Script.ActivateUpgrade | scripts/install.sh:233-238 | daemon-reload, enable, restart, is-enabled and is-active in order up to the first that answers false; it succeeds iff none does |
| Installer.Script.CommitFirstConfiguration | scripts/install.sh:151-169 | succeeds only where there was no configuration, and then writes the candidate; other installations and programs may create it at any moment, and with their steps the commit is a run of `FirstInstall` |
| Installer.Script.PrepareFirstConfiguration | scripts/install.sh:139-149 | files, candidate and success follow from how the dialogue ends; the candidate path lies in the root directory iff no work directory was made |
| Installer.Script.InstallFresh | scripts/install.sh:240-254 | cancelled iff the dialogue was declined and left no candidate, and then no file changed; stopped only if the dialogue or a command failed or a configuration appeared; completed or not active as every step of the activation answered true or not, with the candidate and both assets; the candidate is what this run's dialogue confirmed iff there was a work directory or no earlier `/config.yaml`, and that earlier file otherwise |
| Installer.Script.OnExit | scripts/install.sh:42-62 | with removals succeeding, exactly the staged and work files are gone |
| Installer.Script.RunScript | scripts/install.sh:269-279 | a failed preflight or a configuration path that is no regular file stops the script with nothing touched; every state of the whole run is tidy and whole; clean exit leaves no residue; a first installation leaves a copy of the configuration in the root directory iff it got no work directory, and its configuration was confirmed in this run iff it got one or found no such copy; no command failed in a run that completes, rolls back or is not active, and an upgrade stops only after one failed |
| FirstInstall.ConfigurationIsNeverOverwritten | scripts/install.sh:151-169 | in every interleaving a configuration that exists never changes |
| FirstInstall.AtMostOneCommit | scripts/install.sh:151-169 | of any number of concurrent first installations at most one commits, and the file is its whole candidate |
| FirstInstall.ExistingConfigurationStopsCommits | scripts/install.sh:151-161 | with a configuration present no installation commits |
| BrokerAddress.ValidateDNSName | internal/setup/setup.go:238-254 | accepts iff at most 253 characters and every label has 1 to 63 letters, digits or inner hyphens |
| BrokerAddress.LooksLikeIPv4 | internal/setup/setup.go:226-236 | true iff dotted and made of digits and dots |
| BrokerAddress.NormalizeBrokerHost | internal/setup/setup.go:188-224 | the result, or which error, for every input |
| BrokerAddress.NormalizedExactly | internal/setup/setup.go:188-224 | a value is accepted as h iff h is an address or a proper name and the trimmed value is h or h in brackets |
| BrokerAddress.NormalizationIsIdempotent | internal/setup/setup.go:188-224 | an accepted host, bare or bracketed, normalises to itself |
| BrokerAddress.OuterErrorsExactly | internal/setup/setup.go:189-198 | missing iff there is only white space; bad brackets iff one lacks its partner or nothing is inside |
| BrokerAddress.InnerErrorsNameCause | internal/setup/setup.go:199-223 | every other error names a cause that is in the host |
| BrokerAddress.ParseBrokerPort | internal/setup/setup.go:256-271 | accepts exactly the empty text (1883) and digits with value 1 to 65535 |
| BrokerAddress.PrintedPortParses | internal/setup/setup.go:256-271 | a printed port parses to itself |
| BrokerAddress.BrokerURIRoundTrip | internal/setup/setup.go:273-278 | splitting the authority of the printed URI (section 3.2 of RFC 3986) returns host and port |
| BrokerAddress.BrokerURIInjective | internal/setup/setup.go:273-278 | different accepted brokers print differently |
| SetupDialogue.Runner.Run | internal/setup/setup.go:77-139 | on every script of inputs the dialogue ends, shows what the specification shows and hands at most one answer set to the exclusive writer, none if the configuration cannot be serialised or read back; the outcome says whether the write succeeded, and whether input ended or failed |
| SetupDialogue.Runner.PromptHost | internal/setup/setup.go:141-153 | asks until a host is accepted or input ends |
| SetupDialogue.Runner.PromptPort | internal/setup/setup.go:155-167 | asks until a port is accepted or input ends |
| SetupDialogue.WritingNeedsConsent | internal/setup/setup.go:103-128 | answers are written only after a last line that is `y` or `yes` in any letter case between white space, and for a password without username another one before it; they are the accepted host, port and the lines typed |
| SetupDialogue.AffirmativeExactly | internal/setup/setup.go:280-287 | a line counts as yes iff it is white space, then `y` or `yes` in any letter case, then white space |
| SetupDialogue.VerdictExactly | internal/setup/setup.go:85-128 | answers are written iff the inputs give them, by the first accepted host and port and the two lines after, and then say yes to every question asked; the dialogue is refused iff they say anything else to one |
| SetupDialogue.ConsentFollowsSummary | internal/setup/setup.go:121-123 | the question that is agreed to comes right after a summary of broker, username and whether there is a password |
| SetupDialogue.PasswordIsNotShown | internal/setup/setup.go:169-186 | two sessions that differ in two non-empty passwords show the same text and end alike |
| Identity.ValidateMachineID | internal/config/identity.go:71-89 | the loop accepts, or names the error, as specified |
| Identity.ValidatedExactly | internal/config/identity.go:71-89 | a text is accepted as an ID iff the ID is 32 hexadecimal digits, not all zero, and the text spells it in any letter case between white space |
| Identity.ValidationIsIdempotent | internal/config/identity.go:71-89 | validating a validated ID changes nothing |
| Identity.CanonicalMachineID | internal/config/identity.go:49-69 | the first readable of the two files decides, even when invalid |
| Identity.CanonicalIDExactly | internal/config/identity.go:49-69 | the host's ID is what the first readable file spells |
| Identity.EncodeAt | internal/config/identity.go:99-103 | symbol i of the group-wise base32 of RFC 4648 stands for bits 5i to 5i+4 of the input |
| Identity.TokenAt | internal/config/identity.go:99-103 | character i of the token is the lower-case symbol of those digest bits |
| Identity.TokenReads | internal/config/identity.go:99-103 | each character is the one of `a`-`z`, `2`-`7` whose number has the five digest bits, the most significant first |
| Identity.TokensEqualExactly | internal/config/identity.go:99-103 | two tokens are equal iff the first 100 digest bits are |
| Identity.HashInputInjective | internal/config/identity.go:99-100 | the hashed text determines namespace and machine ID |
| Identity.AutomaticDeviceIDIsSafe | internal/config/identity.go:95-107 | every automatic device ID is one safe topic level |
| Identity.AutomaticDeviceIDsCollideExactly | internal/config/identity.go:95-103 | two machines get the same device ID iff their digests agree on 100 bits |
| Identity.AutomaticInstallationsAreApart | internal/config/identity.go:95-103 | installations with automatic IDs have distinct safe nodes unless two digests agree on 100 bits |
| Identity.Config.ResolveIdentity | internal/config/config.go:89-138 | fills in IDs, provenance and warnings as specified, or reports the error |
| Identity.ResolvedExactly | internal/config/config.go:89-130 | a given ID is kept as explicit; an omitted one is automatic, its prefix and the token of its namespace and the machine ID |
| Identity.WarnedExactly | internal/config/config.go:102-138 | a warning is given iff its cause is there: an omitted client or device ID, the shared client ID, a device ID with a forbidden character |
| Identity.UnsafeWarningExactly | internal/config/config.go:131-138 | a loaded configuration carries the unsafe-ID warning iff the topic filter rejects its device ID |
| Identity.FailsExactly | internal/config/config.go:102-106 | loading fails for want of an identity iff one is omitted and the first readable file, if any, spells no machine ID |

## Left out

- Labels, units, icons and value templates of the entities: they carry no state. In particular nothing is claimed about disk templates, whose keys have underscores (internal/mqtt/autodiscovery.go:186) while the payload uses the raw disk name.
- JSON, YAML, gzip and tar formats: a payload decodes to an optional origin and identifiers, an archive is a sequence of entries, a configuration is opaque. That a configuration cannot be serialised is an oracle of the dialogue; other encoding errors are not modelled.
- SHA-256: a function to 32 bytes of which nothing else is assumed.
- net.ParseIP: a predicate assumed only to accept non-empty text over hexadecimal digits, `:` and `.` once `%` is excluded.
- Invalid UTF-8, and case folding beyond ASCII and the two characters that fold into it. The length limit of hosts counts characters; the code counts bytes, which differs only for text that is rejected anyway.
- MQTT transport, reconnects and authentication: a publish may be lost and may report success or failure independently. A broker that refuses a disk name with `+` or `#` in the topic is such a loss. Readings published outside discovery are not modelled.
- Unsubscribing and late deliveries after the final lock of the collection: they do not reach the returned copy.
- HTTP beyond status, declared length and body; the release checker's timer and the main loop.
- Startup.StartupIsExact: assumes that the scan saw every record under the filter and that every write arrived; what partial scans and lost writes can do is stated by Fleet.NonInterference and Startup.PartialScans.
- Fleet.NonInterference: installations have pairwise distinct IDs without `/`; an ID with `/` publishes into a foreign node (Topics.SlashedIDLandsElsewhere). Other clients write only topics whose third level is no installation's ID.
- Updater.ReplacingNeverLowers: assumes that other programs replace the executable only while no updater is running (Updater.InstallOverwrittenExactly says exactly when an install at another moment can be overwritten), that the feed shows stable tags whose numbers, of whatever size, never go back (other tags end an update before anything is touched), that the version compiled into an updater is that of the executable on disk when it was started.
- Updater.ReturnClassFixesState: says nothing about the last restart once another program has restarted the service under the lock; "restarted" means that the last successful restart command found that executable; systemctl is an oracle.
- Artifact.WorkDirectory.ObtainCandidate: an operation on a local directory or file (creating, writing, syncing, reading again) may fail, and then it does; the download, checksum and version command are inputs. `Apply.Host.Apply` takes each of them anew from the outside; a binary that prints a version is assumed to print the one compiled into it.
- MqttClient.Client.CollectRetained: the timers, the bound of the loop and the signalling of the scan are stated by Collect.Collector.CollectRetained.
- Installer.Script.InstallFresh: others act only during the commit and only on the configuration. Another installation may replace binary and unit at any moment, so "both assets" assumes that none does between this one's staging and its end; a configuration that appears before the commit is refused by it.
- Installer.Script.InstallUpgrade: assumes that no other program writes its files meanwhile.
- Power loss and the order of fsync: a process may stop between any two steps, renames and links are atomic.
- Installer.Script.RollbackUpgrade: the removed legacy unit is not restored; a failure while assets are staged, or of chmod, ends the script without a rollback, and then each file is only known to be whole.
- Installer.Script.RunScript: that another program stores a file on the candidate path during the dialogue is not modelled; no staged file of the same process ID exists at the start; whether preflight succeeds and whether the configuration path holds something other than a regular file are inputs; creating the work directory and assigning its name is one step.
- The terminal's echo handling, opening `/dev/tty`, and re-raising of signals.
- Default device and disk names, the collectors, and publishing of readings.
