# ClusterShell: verified core

ClusterShell deploys a gateway (a k3s cluster in one Docker container) and gives a CLI access to it.
Most of the repository is glue around Docker, gRPC and a terminal. This project models the parts that
carry an algorithm or a protocol and proves what they promise, in Dafny 4.11. `dafny verify
dfyconfig.toml` checks everything.

| file | part of the system |
|---|---|
| `Wildcard.dfy` | the greedy wildcard matcher behind `.dockerignore` |
| `DockerIgnore.dfy` | slash-separated paths, `**/` patterns, ignore lists |
| `BuildContext.dfy` | the walk that fills the build-context archive |
| `Calendar.dfy` | days to dates, and timestamps as text |
| `ShellQuote.dfy` | the command line given to `sh -lc` by `doctor exec` |
| `LogStreams.dfy` | cutting interleaved container logs into lines |
| `CertSwap.dfy` | replacing the CLI's certificate directory |
| `DeployEvents.dfy` | the certificates of a gateway, and the effects of a deployment that are kept in order |
| `Docker.dfy` | container, volume and network operations against a daemon with arbitrary replies |
| `Namespace.dfy` | waiting for the cluster's namespace |
| `Readiness.dfy` | polling until the gateway is healthy |
| `Deploy.dfy` | the whole deployment: order of effects, cleanup, retry |
| `TunnelCache.dfy` | the shared cache of tunnel proxy addresses, all interleavings |
| `Callback.dfy` | the one-shot browser callback, all interleavings |
| `Providers.dfy` | paging and reconciling providers |
| `Registry.dfy` | stored gateways, the active gateway, name resolution |
| `Text.dfy` | the string functions of Rust's standard library that are used |

Code that computes a value is a function; code that changes things step by step is a method on a
class or a loop with invariants, tied to a function or predicate about which the lemmas speak.
File, network and daemon operations are nondeterministic: they succeed, fail, or (for files) are
interrupted by a crash. A daemon or server is only assumed to be honest: what it reports as created
or removed is, what it reports as missing is missing, and nobody else creates the same gateway's
resources meanwhile.

## Findings

Places where the code does less than one might expect, each with an input that shows it and the exact
condition under which the expectation holds.

- A literal `*` in a file name is consumed as a literal by the matcher and then not retried, so `*a`
  rejects `*ba` (`StarInTextIsMissed`). The matcher is right for every pattern exactly when the text has
  no star, and for every text exactly when the pattern has none (`TextAgreement`, `PatternAgreement`).
- A literal pattern with a slash also matches every directory whose path merely begins with it, such
  as `a/b` and the directory `a/bc` (`DirectoryPrefixIsNotAComponentPrefix`, `LiteralPattern`).
- A backslash in a file name, or bytes in it that are not UTF-8, can make two files share one archive
  path (`BackslashCollides`, `UnfaithfulHasTwin`). Among files without backslashes a path is a file's own
  exactly when that file has none and its names are Unicode without the replacement character; among all
  files exactly when it also lies at the top (`PathIsOwnExactlyWhen`, `PathIsUniqueExactlyWhen`).
- `doctor exec A=b ls` runs `ls`, because `=` is left unquoted (`AssignmentIsNotRun`). What is run is the
  given command exactly when its first word is not an unquoted assignment (`DoctorExecRunsCommand`).
- The comment in `mtls.rs` calls the certificate replacement atomic. A successful call makes the live
  directory absent for a while exactly when there was one, and a call that finds none never does
  (`StorePkiBundle`); a whole bundle then exists as backup (`WholeBundleNeverLost`).
- The port check comes after the volume and the network were created and outside the block that cleans
  up. A retry without `recreate` is refused exactly when a container or a volume is left and the check is
  answered: always after a port conflict and after a port listing that fails, after a failed volume
  creation if it took effect, never after a failure before it or one that was cleaned up. When no call
  fails, a first try that fails shuts out the second exactly when the port check did not pass
  (`DeployThenRetry`).
- Secrets whose two copies of the CA differ are reused as they are (`MismatchedCaIsReused`); after
  reconciliation the copies agree exactly when the secrets were rotated or agreed before (`ReconcilePki`).
- A browser callback is answered with success even when an earlier request has already closed the
  channel (`OkDoesNotMeanDelivered`) or the waiting side has timed out (`LateTokenIsUnheard`). Its token
  is the delivered one exactly when the first request that took the sender is valid, carries the same
  token, and came while someone still waited (`OkMeansDeliveredExactlyWhen`, `HeardMeansStillWaiting`).
- A provider name that does not exist can be returned (`SkippedNameIsReturned`): exactly when the first
  explicit name that stands for some inferred type, nothing of that type being listed, has not been
  created (`EnsureRequiredProviders`). If nothing is created at all, that is whenever there is such a name.
- A gateway name with surrounding white space is accepted by `add`, `start` and `select` and then not
  found (`PaddedNameIsLost`). A name is read back as it was saved exactly when it is trimmed
  (`ActivatedIsLoadedExactlyWhenTrimmed`).
- Metadata is found by path and gateway names are not checked, so after `add --name ./a` a
  `destroy --name a` removes the metadata and leaves `./a` active (`OtherSpellingIsLost`). Over a set of
  trimmed names every run keeps the active gateway stored exactly when no two of them reach the same file
  (`RunsStayConsistentExactlyWhen`); `ConsistencyIsKeptExactlyWhen` says it command by command.
- The provider paging loop ends exactly for lists shorter than 2^32 + 99 entries (`PagingEnds`).

## Model

| member | source | states |
|---|---|---|
| `Wildcard.SimpleGlobMatch` | crates/clustershell-bootstrap/src/build.rs:320-351 | the index loop computes the greedy match, accepts only texts of the wildcard language, decides the language when pattern or text has no star, and takes at most (text+1)*(pattern+1) iterations |
| `Wildcard.SimpleMatchSound` | crates/clustershell-bootstrap/src/build.rs:320-351 | every accepted text is in the language, also texts with literal stars |
| `Wildcard.ScanSound` | crates/clustershell-bootstrap/src/build.rs:329-344 | soundness from any state of the loop: the rest matches, or the marked star matches from its text position |
| `Wildcard.ScanComplete` | crates/clustershell-bootstrap/src/build.rs:329-344 | why one star is enough: any match of the latest star and what follows it is found, with no earlier star ever retried |
| `Wildcard.SimpleMatchDecides` | crates/clustershell-bootstrap/src/build.rs:319-351 | acceptance is membership in the language when pattern or text is free of stars |
| `Wildcard.TextAgreement` | crates/clustershell-bootstrap/src/build.rs:330-336 | for a text: right for all patterns if and only if the text has no star |
| `Wildcard.PatternAgreement` | crates/clustershell-bootstrap/src/build.rs:330-336 | for a pattern: right for all texts if and only if the pattern has no star |
| `Wildcard.StarInTextIsMissed` | crates/clustershell-bootstrap/src/build.rs:330-336 | `*ba` is in the language of `*a` and is rejected |
| `DockerIgnore.DoubleStarMeaning` | crates/clustershell-bootstrap/src/build.rs:282-295 | any number of leading `**/` matches exactly when the rest, matched on its own, matches the path or what follows one of its slashes |
| `DockerIgnore.DoubleStarCollapses` | crates/clustershell-bootstrap/src/build.rs:284-295 | a repeated `**/` is one `**/`, whatever follows |
| `DockerIgnore.DoubleStarName` | crates/clustershell-bootstrap/src/build.rs:282-313 | behind `**/` a slash-free name matches exactly when it matches some component of the path |
| `DockerIgnore.DoubleStarNameLanguage` | crates/clustershell-bootstrap/src/build.rs:282-351 | the same in terms of the wildcard language, for paths without stars |
| `DockerIgnore.NamePattern` | crates/clustershell-bootstrap/src/build.rs:297-313 | a slash-free pattern is matched against the first and the last name of the path, and against no other |
| `DockerIgnore.NamePatternLanguage` | crates/clustershell-bootstrap/src/build.rs:297-351 | the same in terms of the wildcard language, for names without stars |
| `DockerIgnore.PathPatternLanguage` | crates/clustershell-bootstrap/src/build.rs:315-316 | a pattern with a slash matches exactly the paths of its wildcard language, and of directories also those that begin with it, slashes at its end aside |
| `DockerIgnore.LeadingSlashesDropped` | crates/clustershell-bootstrap/src/build.rs:263-267 | slashes at the start of a rule make no difference |
| `DockerIgnore.LiteralPattern` | crates/clustershell-bootstrap/src/build.rs:315-316 | a wildcard-free pattern with a slash matches exactly its own path, and for directories exactly the paths it is a string prefix of |
| `DockerIgnore.DirectoryPrefixIsNotAComponentPrefix` | crates/clustershell-bootstrap/src/build.rs:316-316 | the directory `a/bc` is matched by `a/b` |
| `DockerIgnore.IsIgnored` | crates/clustershell-bootstrap/src/build.rs:259-274 | the last matching rule decides; no matching rule means not ignored |
| `RelativePaths.SplitJoin` | crates/clustershell-bootstrap/src/build.rs:301-307 | splitting joined path components gives them back |
| `RelativePaths.JoinSplit` | crates/clustershell-bootstrap/src/build.rs:301-307 | joining what a path is split into gives the path back |
| `BuildContext.WalkAndAdd` | crates/clustershell-bootstrap/src/build.rs:148-215 | the archive grows by exactly the visited files in order; it fails exactly when some visited entry cannot be read or some visited file cannot be stored in the archive |
| `BuildContext.AddEntry` | crates/clustershell-bootstrap/src/build.rs:158-211 | one entry is skipped, descended into, or appended; it fails exactly when what it comes to cannot be read or stored |
| `BuildContext.CreateBuildContextTar` | crates/clustershell-bootstrap/src/build.rs:132-144 | the archive of a context is what the walk visits, in order: an entry with path and data for every kept file of the tree, and for nothing else |
| `BuildContext.CollectExact` | crates/clustershell-bootstrap/src/build.rs:158-211 | a file is archived if and only if it is in the tree and neither it nor a directory above it, below the root, is ignored |
| `BuildContext.ArchiveMeaning` | crates/clustershell-bootstrap/src/build.rs:180-210 | an entry is in the archive if and only if its path and data are those of a file of the tree that nothing on its way drops |
| `BuildContext.CollectDistinct` | crates/clustershell-bootstrap/src/build.rs:158-211 | no file is archived twice |
| `BuildContext.NegationDoesNotReachBelow` | crates/clustershell-bootstrap/src/build.rs:172-178 | no rule list brings back a file below an ignored directory |
| `BuildContext.PathIsOwnExactlyWhen` | crates/clustershell-bootstrap/src/build.rs:163-170 | among files without backslashes a path can only be this file's if and only if it has no backslash and its names survive the lossy conversion |
| `BuildContext.PathIsUniqueExactlyWhen` | crates/clustershell-bootstrap/src/build.rs:163-170 | among all files a path can only be this file's if and only if it is a single such name |
| `BuildContext.UnfaithfulHasTwin` | crates/clustershell-bootstrap/src/build.rs:163-167 | a name that is not Unicode, or has the replacement character, shares its text with another |
| `BuildContext.BackslashCollides` | crates/clustershell-bootstrap/src/build.rs:169-170 | with one they can coincide |
| `Calendar.CivilFromDaysCorrect` | crates/clustershell-cli/src/run.rs:141-153 | for every day count, negative ones too, the result is a valid Gregorian date whose independently counted day number is the input |
| `Calendar.CivilFromDaysInverts` | crates/clustershell-cli/src/run.rs:141-153 | every valid date is the date of its own day number, so the two are inverse |
| `Calendar.CivilFromDaysIncreasing` | crates/clustershell-cli/src/run.rs:141-153 | later days get later dates |
| `Calendar.DaysBeforeYearClosed` | crates/clustershell-cli/src/run.rs:142-147 | counting leap years one by one agrees with the quotients by 4, 100 and 400 |
| `Calendar.EraIsFloor` | crates/clustershell-cli/src/run.rs:143-144 | truncating division with the adjusted numerator is floor division |
| `Calendar.YearFormula` | crates/clustershell-cli/src/run.rs:145-145 | the year formula is exact on all days of the 400-year era |
| `Calendar.MonthFormula` | crates/clustershell-cli/src/run.rs:148-151 | the month and day formulas give a valid date on the right day of the year |
| `Timestamps.FieldsRecombine` | crates/clustershell-cli/src/run.rs:127-135 | the six fields put together are the whole seconds of the timestamp |
| `Timestamps.FormatRoundTrip` | crates/clustershell-cli/src/run.rs:111-137 | reading the rendered text back gives the whole seconds of the timestamp |
| `Timestamps.FormatShape` | crates/clustershell-cli/src/run.rs:111-137 | a dash for a negative timestamp; otherwise a year of four or more digits, and dashes, a blank and colons where they belong |
| `ShellQuote.JoinEscapedRoundTrip` | crates/clustershell-cli/src/run.rs:1726-1727 | the joined escaped arguments are read by the shell as exactly the arguments, including empty ones and embedded quotes |
| `ShellQuote.LexEscaped` | crates/clustershell-cli/src/run.rs:1841-1854 | one escaped argument is one word whose text is the argument, in any context |
| `ShellQuote.InnerCommandTokens` | crates/clustershell-cli/src/run.rs:1723-1728 | the whole line is the kubeconfig assignment followed by the given words |
| `ShellQuote.AssignmentIsNotRun` | crates/clustershell-cli/src/run.rs:1847-1850 | the words `A=b` and `ls` run `ls` |
| `ShellQuote.DoctorExecRunsCommand` | crates/clustershell-cli/src/run.rs:1723-1772 | what is run is the given command if and only if its first word is not an unquoted assignment |
| `LogStreams.ChunkingIndependence` | crates/clustershell-bootstrap/src/runtime.rs:270-287 | however a stream is cut, the same lines come out and the carried text has no newline |
| `LogStreams.FeedIsWhole` | crates/clustershell-bootstrap/src/runtime.rs:270-279 | feeding chunks one by one equals feeding their concatenation |
| `LogStreams.EndedAppend` | crates/clustershell-bootstrap/src/runtime.rs:271-278 | carrying the open line over loses and repeats nothing |
| `LogStreams.EndedMeaning` | crates/clustershell-bootstrap/src/runtime.rs:271-278 | what is sent for a text is its first line without the carriage returns at its end, unless empty, and then what is sent for the rest |
| `LogStreams.FlushedMeaning` | crates/clustershell-bootstrap/src/runtime.rs:281-287 | a flush sends the carried text without the white space around it, unless nothing is left |
| `LogStreams.AppendLogChunk` | crates/clustershell-bootstrap/src/runtime.rs:270-279 | sends the ended, tidied lines in order and keeps what follows the last newline |
| `LogStreams.FlushPartial` | crates/clustershell-bootstrap/src/runtime.rs:281-287 | sends the trimmed open line unless nothing is left of it |
| `LogStreams.StreamContainerLogs` | crates/clustershell-bootstrap/src/runtime.rs:241-268 | each stream's lines are those of its own text, however the three interleave; an error ends reading without a flush and sends exactly its own line |
| `CertSwap.LiveIsNeverMixed` | crates/clustershell-bootstrap/src/mtls.rs:14-77 | in every state of every run the live directory is absent or exactly one whole non-empty bundle |
| `CertSwap.WholeBundleNeverLost` | crates/clustershell-bootstrap/src/mtls.rs:44-77 | once a bundle has been live, a whole bundle is live or in the backup in every later state |
| `CertSwap.BackupIsLastLive` | crates/clustershell-bootstrap/src/mtls.rs:44-77 | while live is absent the backup is exactly the bundle that was live last |
| `CertSwap.StepKeepsConsistent` | crates/clustershell-bootstrap/src/mtls.rs:44-75 | each allowed change keeps both |
| `CertSwap.CertStore.StorePkiBundle` | crates/clustershell-bootstrap/src/mtls.rs:14-77 | with failure or crash possible at every operation, all changes are allowed ones; success comes exactly when no operation fails and no part of the bundle is empty, and leaves exactly the new bundle, each file with the part it is named after; otherwise live is old, new, or set aside; a successful call makes live vanish for a while if and only if there was one, and no call that finds none does |
| `CertSwap.CertStore.PrepareTemp` | crates/clustershell-bootstrap/src/mtls.rs:19-42 | touches only the temporary directory and succeeds only with all three files written and non-empty; it stops only for a failed operation or an empty part |
| `CertSwap.CertStore.Exchange` | crates/clustershell-bootstrap/src/mtls.rs:44-76 | an error leaves the old directory in place unless putting it back fails, too; success leaves exactly the new bundle and no backup of a replaced one; it comes exactly when no operation fails |
| `CertSwap.CertStore.SetAside` | crates/clustershell-bootstrap/src/mtls.rs:44-56 | the live directory becomes the backup, or stays |
| `CertSwap.CertStore.ValidateBundleDir` | crates/clustershell-bootstrap/src/mtls.rs:95-106 | accepts only directories with all three files present and non-empty, and rejects those only when a read fails |
| `CertSwap.StoreMany` | crates/clustershell-bootstrap/src/mtls.rs:14-77 | all three guarantees over any number of calls, each stopped anywhere |
| `Docker.Daemon.EnsureNetwork` | crates/clustershell-bootstrap/src/docker.rs:340-381 | success means there is a network that this call created, any earlier one being removed; conflicts, and nothing else, are retried up to five times; the reported error is always there; at most 5000 ms of pauses |
| `Docker.Daemon.EnsureVolume` | crates/clustershell-bootstrap/src/docker.rs:383-399 | success means the volume exists; an existing one is kept, a missing one is new |
| `Docker.Daemon.EnsureContainer` | crates/clustershell-bootstrap/src/docker.rs:459-513 | success means the container exists; one with the wanted image is kept, any other replaced, a missing one created, on the current volume |
| `Docker.Daemon.StartContainer` | crates/clustershell-bootstrap/src/docker.rs:773-802 | success means the container runs; a busy port, and nothing else, is retried up to five times; at most 5000 ms of pauses |
| `Docker.Daemon.ForceRemoveNetwork` | crates/clustershell-bootstrap/src/docker.rs:925-957 | success means the network is gone |
| `Docker.Daemon.DestroyGatewayResources` | crates/clustershell-bootstrap/src/docker.rs:814-920 | success means no container, volume or network is left; nothing is ever created |
| `Docker.Daemon.CheckExistingGateway` | crates/clustershell-bootstrap/src/docker.rs:1030-1066 | reports exactly what exists and whether it runs, and nothing only when neither container nor volume does |
| `Namespace.WaitForNamespace` | crates/clustershell-bootstrap/src/lib.rs:954-1056 | the namespace is found if and only if some attempt that is reached finds it; never runs past its last attempt, at most 59 pauses of 113000 ms together, the DNS abort exactly at the second failed probe with no success between; each other outcome says what the last lookup answered |
| `Namespace.ThresholdMeaning` | crates/clustershell-bootstrap/src/lib.rs:977-999 | the failure counter reaches two if and only if there are two failures with no success between |
| `Namespace.ProbedAttempts` | crates/clustershell-bootstrap/src/lib.rs:966-977 | the DNS probes are made at attempts 3, 6, 9 and so on |
| `Namespace.TotalPauseClosed` | crates/clustershell-bootstrap/src/lib.rs:963-964 | the doubling, capped pauses in closed form |
| `Readiness.WaitForGatewayReady` | crates/clustershell-bootstrap/src/runtime.rs:44-226 | the verdict is that of the first poll that decides, or a timeout; at most 180 inspections; every line received is passed on in order, late ones after an exit or a timeout; the window is the last of them |
| `Readiness.PollOnce` | crates/clustershell-bootstrap/src/runtime.rs:63-210 | one poll: the window, both streak counters and the order of the checks |
| `Readiness.ReachedExactlyWhen` | crates/clustershell-bootstrap/src/runtime.rs:63-210 | a poll takes place if and only if it is one of 180 and every earlier one found no marker that ends the wait and a running container that is starting, unhealthy, or past the first poll without health check |
| `Readiness.MarkersMeaning` | crates/clustershell-bootstrap/src/runtime.rs:70-136 | which texts count as markers, in the last fifteen lines received |
| `Readiness.LastLinesMeaning` | crates/clustershell-bootstrap/src/runtime.rs:289-303 | the window is all lines, or the last fifteen of more |
| `Readiness.LogWindow.Drain` | crates/clustershell-bootstrap/src/runtime.rs:289-303 | the window is exactly the last at most fifteen lines, and every line is passed on in order |
| `Readiness.StreakIsUnbrokenRun` | crates/clustershell-bootstrap/src/runtime.rs:70-98 | a counter is the length of the current maximal run of marked polls |
| `Readiness.ReadyMeansHealthy` | crates/clustershell-bootstrap/src/runtime.rs:126-194 | success if and only if a poll that takes place finds the container running and healthy with no missing-supervisor marker and both streaks below their limits |
| `Readiness.DnsAbortAtFive` | crates/clustershell-bootstrap/src/runtime.rs:70-85 | the DNS abort comes exactly at the poll where the run reaches five |
| `Readiness.PressureAbortAtEight` | crates/clustershell-bootstrap/src/runtime.rs:91-124 | the pressure abort exactly at eight, unless the DNS run is at five |
| `Readiness.SupervisorMissingMeans` | crates/clustershell-bootstrap/src/runtime.rs:126-147 | exactly at a poll with the marker and both streaks below their limits |
| `Readiness.InspectFailedMeans` | crates/clustershell-bootstrap/src/runtime.rs:149-152 | exactly at an inspection that fails |
| `Readiness.ExitedMeans` | crates/clustershell-bootstrap/src/runtime.rs:154-183 | exactly at an inspection that finds the container not running |
| `Readiness.StillUnhealthyMeans` | crates/clustershell-bootstrap/src/runtime.rs:195-201 | exactly at the last poll, with an unhealthy container |
| `Readiness.HealthCheckMissingMeans` | crates/clustershell-bootstrap/src/runtime.rs:202-208 | exactly at the first poll, with a container without health check |
| `Readiness.TimedOutMeans` | crates/clustershell-bootstrap/src/runtime.rs:216-222 | exactly when all polls take place and the last one leaves it open |
| `Readiness.OutcomeIsUnique` | crates/clustershell-bootstrap/src/runtime.rs:62-225 | the replies determine the verdict |
| `Deploy.DeployGateway` | crates/clustershell-bootstrap/src/lib.rs:254-541 | effects are ordered; failure with successful cleanup leaves nothing; which endings leave a container or a volume; with no failing call the answers alone decide between them; an existing gateway is reported untouched; success means a running container on the current volume, a healthy poll, stored metadata and certificates that agree with the cluster; with no failing call it comes if and only if all answers are good |
| `Deploy.OrderedMeaning` | crates/clustershell-bootstrap/src/lib.rs:408-517 | a container only on a volume of the same run; the CLI bundle only after its secrets and, if rotated under a workload, a restart; metadata only after health |
| `Deploy.DeployThenRetry` | crates/clustershell-bootstrap/src/lib.rs:294-402 | a retry is refused as existing if and only if something is left and the check is answered; nothing is left after a cleaned-up failure or one before the volume, something always after a port conflict or a failed port check; with no failing call, a failed first try is followed by a refusal if and only if the port check did not pass |
| `Deploy.ReconcilePki` | crates/clustershell-bootstrap/src/lib.rs:799-839 | returns a bundle only when all its secrets are in place; reuses exactly complete and readable secrets and then changes nothing, and otherwise rotates exactly when the namespace is found and new secrets can be made and applied; the copies of the CA agree if and only if rotated or they did before |
| `Deploy.MismatchedCaIsReused` | crates/clustershell-bootstrap/src/lib.rs:883-914 | secrets with two different CAs are reused |
| `Deploy.Cluster.LoadExistingBundle` | crates/clustershell-bootstrap/src/lib.rs:844-915 | a bundle is found if and only if all six parts are readable PEM data, and it is what the secrets hold |
| `Deploy.Cluster.CreateTlsSecrets` | crates/clustershell-bootstrap/src/lib.rs:700-793 | success means all three secrets are those of the bundle, with one CA |
| `Deploy.StoreCliBundle` | crates/clustershell-bootstrap/src/lib.rs:457-457 | a bundle counts as written as soon as it is live, even if the call then fails |
| `Deploy.InstallCertificates` | crates/clustershell-bootstrap/src/lib.rs:446-457 | keeps the order, accounts for every change of the live directory, ends with the CLI's files agreeing with the cluster, and succeeds if and only if secrets can be reused or rotated, a workload restarted, and the files written |
| `Deploy.GuardedBlock` | crates/clustershell-bootstrap/src/lib.rs:408-518 | keeps the order; success means a running container, a healthy poll, stored metadata and agreeing certificates, and with no failing call it comes if and only if the certificates can be installed and the rest succeeds |
| `Deploy.DeployGuarded` | crates/clustershell-bootstrap/src/lib.rs:408-540 | the guarded block with its cleanup: success, death, or a failure that is cleaned up or not |
| `Deploy.ClearTheWay` | crates/clustershell-bootstrap/src/lib.rs:294-306 | goes on only with neither container nor volume; without recreate nothing is touched |
| `Deploy.Provision` | crates/clustershell-bootstrap/src/lib.rs:308-402 | goes on only with a network and a volume created now; says for each way out what is left and, with no failing call, when it is taken |
| `TunnelCache.SameKeySameAddress` | crates/clustershell-cli/src/tls.rs:229-249 | under every interleaving two calls for one key return one address |
| `TunnelCache.EntriesNeverChange` | crates/clustershell-cli/src/tls.rs:247-248 | a published entry is permanent |
| `TunnelCache.AnswersNeverChange` | crates/clustershell-cli/src/tls.rs:229-249 | so is an answer |
| `TunnelCache.KeysNeverChange` | crates/clustershell-cli/src/tls.rs:229-230 | a call keeps the server and token it came with |
| `TunnelCache.LateCallIsAnsweredFromCache` | crates/clustershell-cli/src/tls.rs:233-238 | a call that looks after its key was published returns the published address and starts no proxy |
| `TunnelCache.DifferentKeysDifferentAddresses` | crates/clustershell-cli/src/tls.rs:223-249 | with fresh proxies, different keys never share an address |
| `TunnelCache.BothCallsStartAProxy` | crates/clustershell-cli/src/tls.rs:233-248 | the race in which both calls start a proxy exists, and they still agree |
| `Callback.FirstTakerDecides` | crates/clustershell-cli/src/auth.rs:284-378 | under every interleaving the first taker, and whether someone still waits for it, fix the outcome; the waiting side gets only that token; at most one token is sent; wrong paths, preflights and other verbs never take the sender |
| `Callback.OutcomeIsFinal` | crates/clustershell-cli/src/auth.rs:223-230 | a decided outcome never changes |
| `Callback.OkMeansDeliveredExactlyWhen` | crates/clustershell-cli/src/auth.rs:328-377 | under every interleaving a request told success is valid and has gone for the sender, and its token is the delivered one if and only if the first taker is valid, carries the same token and came while someone waited |
| `Callback.HeardMeansStillWaiting` | crates/clustershell-cli/src/auth.rs:145-156 | what is remembered of the first taker is whether the waiting side had not given up just before it |
| `Callback.LateTokenIsUnheard` | crates/clustershell-cli/src/auth.rs:373-377 | after a timeout a valid request is told success and its token reaches nobody |
| `Callback.OkDoesNotMeanDelivered` | crates/clustershell-cli/src/auth.rs:373-377 | a valid request is told success although an earlier one closed the channel |
| `Callback.CallbackServerState.Handle` | crates/clustershell-cli/src/auth.rs:284-378 | who takes the sender, what the channel becomes, and for every status exactly the requests that get it |
| `Callback.CallbackServerState.TakeSender` | crates/clustershell-cli/src/auth.rs:224-229 | the sender is handed out once |
| `Providers.PagingEnds` | crates/clustershell-cli/src/run.rs:2929-2950 | the saturating paging loop meets a short page if and only if the list is shorter than 2^32 + 99 |
| `Providers.FetchAll` | crates/clustershell-cli/src/run.rs:2926-2951 | all names are known, and each type has the first provider of that type |
| `Providers.ReadPage` | crates/clustershell-cli/src/run.rs:2937-2945 | reading a page, even one that overlaps earlier ones, keeps the records exact |
| `Providers.UseExplicit` | crates/clustershell-cli/src/run.rs:2957-2983 | one explicit name is kept, created and chosen, or skipped, and stands for its type; no other name is chosen |
| `Providers.AddRecorded` | crates/clustershell-cli/src/run.rs:2988-2994 | every inferred type with a recorded name gets that name |
| `Providers.CreateMissing` | crates/clustershell-cli/src/run.rs:2996-3012 | every other inferred type is covered by a created provider or skipped, as the user has it, and only providers of inferred types are added |
| `Providers.InferredPass` | crates/clustershell-cli/src/run.rs:2986-3013 | after both steps every chosen name exists or was skipped, was asked for by name or serves an inferred type, and with nothing skipped every inferred type is covered |
| `Providers.MissingNames` | crates/clustershell-cli/src/run.rs:2957-2994 | a chosen name does not exist if and only if the first explicit name to stand for some inferred type, nothing of it being listed, does not |
| `Providers.EnsureRequiredProviders` | crates/clustershell-cli/src/run.rs:2910-3016 | no repeated name; every explicit name unless skipped, every known one always; every returned name exists unless skipped and was asked for; with nothing skipped every inferred type is covered; exactly what is skipped; exactly when it succeeds, creations that fail aside; with creation on and credentials for all, nothing is skipped and every explicit name is returned; exactly when a missing name is returned |
| `Providers.AutoCreateProvider` | crates/clustershell-cli/src/run.rs:3024-3168 | skipped if and only if switched off, declined, or without credentials; fails if nobody can be asked or the prompt or search fails, and otherwise only if creating does; an explicit name is tried once, a type under five names while they exist already |
| `Providers.MayCreate` | crates/clustershell-cli/src/run.rs:3034-3070 | creation is allowed if and only if switched on or agreed to, refused if and only if switched off or declined |
| `Providers.SkippedNameIsReturned` | crates/clustershell-cli/src/run.rs:2962-2994 | with creation off and nothing on the server, the call succeeds unless listing fails and returns the missing name |
| `Registry.ConsistencyIsKeptExactlyWhen` | crates/clustershell-bootstrap/src/metadata.rs:141-252 | which commands keep "the active gateway is unset or stored": exactly those that leave a readable name of a stored file, and those that clear what they remove under the same name |
| `Registry.RunStaysConsistent` | crates/clustershell-cli/src/run.rs:901-1084 | every run with trimmed names that do not share files and successful file operations keeps it |
| `Registry.RunsStayConsistentExactlyWhen` | crates/clustershell-bootstrap/src/metadata.rs:141-143 | over a set of trimmed names every such run keeps it if and only if no two of the names reach the same file |
| `Registry.OtherSpellingIsLost` | crates/clustershell-cli/src/run.rs:1566-1578 | adding a gateway and destroying it under another name for its file leaves it active and unknown |
| `Registry.ResolutionFailsOnlyWhenNothingIsActive` | crates/clustershell-cli/src/main.rs:76-103 | resolution without flag and environment finds the active gateway under its own name, or there is no active gateway |
| `Registry.ResolutionOrder` | crates/clustershell-cli/src/main.rs:76-103 | the flag decides, then an environment value that is not blank, then the active gateway |
| `Registry.EffectOnResolution` | crates/clustershell-cli/src/run.rs:977-1059 | after a start or an add the name resolves to itself with its endpoint, after a destroy to nothing, and names of other files resolve as before |
| `Registry.ActiveIsLastActivated` | crates/clustershell-cli/src/run.rs:1500-1592 | the active gateway is the one last started, added or selected, unless destroyed by that name since |
| `Registry.PaddedNameIsLost` | crates/clustershell-bootstrap/src/metadata.rs:235-252 | a padded name is stored and then unknown |
| `Registry.Store.GatewayUse` | crates/clustershell-cli/src/run.rs:752-765 | selects exactly a gateway whose file is stored, if the write succeeds |
| `Registry.Store.GatewayAdd` | crates/clustershell-cli/src/run.rs:977-1059 | refuses a name whose file is stored, else stores and activates; succeeds exactly when both writes do |
| `Registry.Store.RegisterStarted` | crates/clustershell-cli/src/run.rs:1500-1506 | a started gateway is stored and activated |
| `Registry.Store.SaveActiveGateway` | crates/clustershell-bootstrap/src/metadata.rs:235-242 | a failed write leaves the file alone or with a beginning of the name |
| `Registry.Store.RemoveGatewayRegistration` | crates/clustershell-cli/src/run.rs:1566-1592 | removes the metadata of the name's file and clears the active gateway if it has that name |
| `Registry.LoadableExactlyWhenTrimmed` | crates/clustershell-bootstrap/src/metadata.rs:247-252 | a name can be read from the active-gateway file if and only if it is trimmed and not empty |
| `Registry.ActivatedIsLoadedExactlyWhenTrimmed` | crates/clustershell-bootstrap/src/metadata.rs:235-252 | a name made active is read back as it is if and only if it is trimmed |
| `Registry.PerformAll` | crates/clustershell-cli/src/run.rs:752-1592 | over any list of commands on the files, the active gateway is the one last activated and not destroyed since, and with names that do not share files it stays stored |

## Left out

- Docker, Kubernetes, gRPC and WebSocket calls themselves; their replies are nondeterministic.
- Image pulls, tar encoding, base64, certificate generation and file permissions.
- Reading `.dockerignore` into rules: trimming, comments and the leading `!`.
- The names in a walked tree are text already; names that are not Unicode are treated on paths alone.
- Which names share a metadata file depends on the file system, so it is a parameter of the registry model.
- Symbolic links in the build context, and UTF-8 sequences that are split across log chunks.
- The ssh form of `doctor exec`, which adds a second shell.
- CivilFromDays: takes a mathematical integer; the casts between u64 and i64 cannot wrap for any timestamp in milliseconds that fits in an i64.
- FormatEpochMs: treats the addition to the epoch as always representable, so only negative timestamps have no text.
- Pushing images and looking for and restarting the workload are single steps that succeed or fail.
- The CA's own key, which is neither stored in the cluster nor given to the CLI.
- The environment variables and options that configure the container.
- Stale-node cleanup during deployment, whose result is ignored by the code.
- Looking a gateway up by endpoint, listing gateways, and edge tokens, which do not affect name resolution.
- NormalizeProviderType: the table of provider types is a parameter of the provider model, so the results hold for every table.
- AutoCreateProvider: the prompt is answered the same way when it comes again for the same type and name, and the search for a type always finds the same.
- The content of error messages, panels, tables and prompts.
- The OPA policy engine, proxy, router, gateway server, Python SDK and console.
