# touchid-agent: a verified model

touchid-agent is an SSH agent for macOS whose keys live in the Secure Enclave. Under its Apple plumbing it has a
small stateful middle: a locking protocol that serves signature requests, a hash-chained audit log that survives
restarts, a sliding-window rate limiter, a detector for stalled Touch ID prompts, a migration of launchd property
lists, and codecs for caller rules, public keys and keyfiles. This project models that middle and proves what it
promises, for every input, every run and every interleaving. All modules are checked together by
`dafny verify dfyconfig.toml`.

## What is modelled, and how

**Signing.** `signing_protocol.dfy` is a step system with any number of client threads over one store of keys: a
request matches a key, takes the key's lock, passes the caller policy, the key's own rules and the rate limiter,
takes the process-wide prompt lock when the key needs touch, signs, notes the outcome, audits, and releases. What
the code cannot foresee (time, how a prompt ends, whether a record can be written) is the step's choice.
`signing_locks.dfy`, `signing_audit.dfy`, `signing_rate.dfy` and `signing_stall.dfy` hold the claims about every
interleaving; `signing_alone.dfy` says what one request's steps amount to, and `agent.dfy` proves the agent's own
method, written as the code writes it over a map of mutexes, a policy, a detector and a logger, against that.
`signing_sharp.dfy` gives, for every limit, a run that reaches the rate bound. `accept_loop.dfy` is the accept loop
with its wait group and shutdown.

**Audit log.** `log_lines.dfy` is the log as bytes: the verifier's forward scan and the restarting logger's bounded
backward scan. `audit_chain.dfy` is the hash chain, the verifier's loop and tamper evidence. `audit_log.dfy` is the
writer, over all runs of writes, failed writes and restarts. SHA-256 (section 6.2 of FIPS 180-4) and JSON are
parameters. No claim assumes that the hash is injective: where a claim depends on it, the proof exhibits the two
lines with one hash, or the line that hashes to genesis.

**Rate limiter, caller policy, stall detector.** `rate_limit.dfy` keeps the grants of the last minute in an array,
filtered in place, and refines a count over the whole history of grants; `caller_policy.dfy` keeps one such bucket a
key behind a map. `stall_detector.dfy` is the timed state machine over prompt outcomes. Times are integers in
nanoseconds, an input that never decreases.

**Property lists.** `plist_flags.dfy` is the transformation of argument vectors, `plist_xml.dfy` and
`plist_values.dfy` a printer and a reader of the XML subset that is emitted, `plist_migration.dfy` the rendered
document, its classification and the migration from end to end.

**Keys.** `caller_rules.dfy` prints and parses caller rules. `point_codec.dfy` is the 65-byte form of a public key.
`key_files.dfy` and `key_store.dfy` are the directory of keyfiles, as a refinement of a map from labels to keys;
`names.dfy` is the order of labels.

`wrappers.dfy` and `peers.dfy` hold the types they share.

## Where the code and its documentation part

- `-require-hardened-callers` is a flag of the agent (`main.go:111`), but a migration drops it, although flags are
  said to be dropped only when they have no meaning under socket activation or are not agent flags
  (`plist_darwin.go:35-37`). `PlistFlags.MigrationDropsHardening` says exactly when a migration changes something.
- The agent listens on the path of its last `-l`, and a migration takes over what follows the first argument that
  reads `-l`, even when that is another flag's value (`plist_darwin.go:549-557`). `PlistFlags.SocketAgreement` says,
  for every vector that parses, exactly when they agree; `PlistFlags.FirstSocketIsKept` and
  `PlistFlags.ValueIsMisread` are the two ways to differ.
- A rule of the platform kind has a printed form (`policy.go:89-90`) that the parser rejects (`policy.go:287-288`).
  `CallerRules.PrintParse` and `KeyFiles.WrittenReloads` say exactly which rules survive.
- A record from before the chain at the end of a chained log makes a restarted logger continue with a wrong number,
  and the verifier then reports a gap (`AuditLog.LegacyAfterChained`). `AuditLog.ResumeCondition` says exactly when
  resuming keeps a log intact.
- A last line that ends in a carriage return is hashed with it by a restarting logger and without it by the verifier
  (`LogLines.TailKeepsCarriageReturn`). `LogLines.ScansAgree` says exactly when both read the same line.
- Three cancelled prompts within three minutes can stay without an alert, although three is the threshold
  (`agent.go:287-293`): the window is anchored. `StallDetector.ThreeMissesAlert` says exactly when three suffice:
  unless the first of them is the second of its episode and the next comes after the episode's window. Four always
  do (`StallDetector.FourMissesAlert`).

## Model

| member | source | states |
|---|---|---|
| SigningLocks.LocksHold | agent.go:158-260 | in every reachable state the lock table is exact: a lock is taken if and only if one thread is between taking and releasing it, and by that thread |
| SigningLocks.MutualExclusion | agent.go:181-183 | in every reachable state at most one thread shows a prompt, and at most one is between lock and unlock of a label |
| SigningLocks.PrompterHolds | agent.go:229-238 | a thread that shows a prompt holds its own key's lock and the prompt lock, and no other lock |
| SigningLocks.LocksRise | agent.go:181-236 | a thread that waits for a lock holds only locks of lower rank: key, then prompt, then the leaf locks of stall, audit and bucket |
| SigningLocks.DeadlockFree | agent.go:158-260 | while a request is open in a reachable state some thread can step |
| SigningLocks.RunsAreBounded | agent.go:158-260 | no run is longer than fourteen steps a request |
| SigningLocks.EveryRequestIsAnswered | agent.go:158-260 | in every run that cannot go on, every request has been answered |
| SigningLocks.NoTouchNeverWaitsForPrompt | agent.go:229-238 | when the thread at the prompt never steps again and the others run until none can step, every request for another key without touch has been answered |
| SigningLocks.PromptStaysOpen | agent.go:233-238 | nothing other threads do ends a prompt |
| SigningAudit.AuditHolds | agent.go:158-260 | in every reachable state the audit calls are one truthful call for each thread past its audit and none for the others, and whoever is past the rate check was admitted |
| SigningAudit.ExactlyOnce | agent.go:158-260 | an answered request made exactly one audit call if it matched a key and none otherwise; its success flag says whether a signature was returned; a signature means that the policy, the key's rules and the rate check admitted that peer |
| SigningAudit.CallersAreChecked | agent.go:187-204 | a matched request is turned away by the policy exactly when that is enforced and does not recognize the caller by what its rules name, or asks for more hardening; by the key exactly when the policy let it pass and the key has rules of which none names the caller; and neither otherwise |
| SigningAudit.AuditedBeforeUnlock | agent.go:181-252 | a matched request that has left its key's lock has made its audit call |
| SigningAudit.OneCallPerMatchedRequest | agent.go:158-260 | when all requests are answered there are as many audit calls as matched requests |
| SigningAudit.AgentLogVerifies | agent.go:251-252 | in every reachable state the log that the agent's calls leave on disk verifies and has gained a chained record for every successful write, which are, when every record encodes, as many as the requests whose record was written: none is written twice |
| SigningAudit.LogTellsRequests | agent.go:251-252 | when every record encodes, each line that the log has gained tells of a request whose record was written, and one line of each such request: its key, its caller, and whether it returned a signature |
| SigningAudit.LogCountsRequests | agent.go:158-260 | without failed writes the verified log has gained one record for every answered request that matched |
| SigningRate.SignsFollowGrants | agent.go:181-238 | in a history in which each signature follows its own admission, a window holds at most one signature more than admissions |
| SigningRate.RateHolds | policy.go:192-226 | in every reachable state each key's history alternates admissions and signatures, stays within the limit in every window, and is what its bucket answers for |
| SigningRate.AdmittedByCount | policy.go:209-226 | in every reachable state a request at its bucket is admitted if and only if fewer admissions of its key than the limit fall in the last 60 seconds, and is otherwise answered as rate-limited without a trace |
| SigningRate.SignaturesPerMinute | policy.go:192-226 | in every interleaving with limit L > 0, any one-minute window holds at most L admissions and at most L + 1 signatures of one key |
| SigningRate.SignsInCounts | policy.go:213-219 | the signatures counted are those that ended in the last 60 seconds |
| SigningRate.SignedExactly | agent.go:238-260 | a request has a signature if and only if its own signing step succeeded |
| SigningRate.EachSignatureOnce | agent.go:238-260 | in every reachable state the history holds exactly one signature for each request that has one to return or has returned it, under its key's label, and none for the others |
| SigningRate.AnswersPerMinute | policy.go:192-226 | in every interleaving with limit L > 0, at most L + 1 of the requests for one key that were answered with a signature got it within any one minute |
| SigningSharp.BoundIsReached | agent.go:181-238 | the bound is sharp: for every limit L > 0 and every peer there is a run after which L + 1 signatures of one key have ended within a minute |
| SigningStall.DetectorFollowsTrace | agent.go:330-358 | in every interleaving the detector's state is the one after the noted outcomes, whose times are in order and not in the future |
| SigningStall.EachPromptIsNoted | agent.go:233-248 | in every reachable state the outcomes noted are as many as the requests past their prompt: none is lost or noted twice |
| SigningStall.OutcomesAreConserved | agent.go:238-248 | for each outcome, the prompts that ended in it are as many as have been noted and are about to be: none is lost, changed or made up |
| SigningStall.AlertInRunIsSound | agent.go:330-358 | in every interleaving an alert comes with three prompts that were not completed, no completed one among them, within three minutes |
| SigningStall.FourPromptsAlert | agent.go:287-293 | in every interleaving four prompts that were not completed within three minutes, no completed one among them, raise an alert, or their episode has raised one |
| SigningAlone.ServedAlone | agent.go:158-260 | from any reachable state that keeps a request's locks free, the run can go on with steps of that request's thread alone to a state in which it has ended with its verdict, its bucket, detector, audit call and history are updated, and every lock is given back |
| SigningAlone.VerdictExactly | agent.go:158-260 | how a request served alone ends, in terms of its caller and the rules, of the times in its bucket in the last 60 seconds, and of its signer |
| Agents.Agent.SignFor | agent.go:158-260 | the agent's method returns the result of the request's protocol steps and leaves the rate buckets, the stall detector and the audit log as they do, all locks released |
| Agents.Agent.KeyLock | agent.go:56-59 | requests for one label get one lock, made on first use; no other label's lock changes |
| Agents.Agent.Admit | agent.go:187-211 | the request is turned away by the global policy, else by the key's own rules, else by the rate limiter, and only a request that reaches the limiter touches its bucket |
| Agents.Agent.Attempt | agent.go:222-252 | the prompt lock is free again, the detector has heard of the prompt exactly when the key needs touch and the signer was reached, and one record says whether there is a signature |
| AuditChain.AcceptsPrefix | audit.go:208-242 | acceptance is prefix-closed |
| AuditChain.AcceptsExtend | audit.go:225-237 | an accepted log stays accepted exactly when the next line decodes and, if chained, names the line before it and the next number |
| AuditChain.AcceptsExactly | audit.go:208-237 | a log is accepted if and only if every line decodes, every line with a prev-hash names the hash of the line before it (64 zeros for the first), and each such line counts on from the last one before it unless that has number 0 |
| AuditChain.BreakExactly | audit.go:222-235 | the reason for a break: invalid JSON if and only if the line does not decode, a mismatch if and only if it decodes and names something else, a gap only where the numbers do not count on |
| AuditChain.CountedAreCarriers | audit.go:225-234 | the chained count is the number of lines that carry a prev-hash |
| AuditChain.FirstBreakIsLeast | audit.go:186-193 | a reported line is the least number of lines that is not accepted, and there is only one such number |
| AuditChain.VerifyAuditChain | audit.go:198-243 | the verifier's loop reports success exactly for scannable accepted logs, with the record and chained counts; otherwise the first break, its reason and the counts up to it |
| AuditChain.TamperEvidence | audit.go:21-27 | of two accepted logs with the same last line, one of them fully chained, either both are equal or there are two lines with one hash or a line that hashes to genesis |
| AuditChain.AnchoredCopy | audit.go:24-26 | a fully chained copy shipped elsewhere pins what stands up to its last record in any accepted log, unless the hash is broken |
| AuditChain.TamperingIsReported | audit.go:195-197 | a changed log with the old last line has a first break to report, as long as no two lines of the two logs collide and none hashes to genesis |
| LogLines.TailLineIsLastRecord | audit.go:76-104 | the bounded backward scan finds the line that the forward scan ends in exactly when that line and the newlines after it fit in 64 KiB (or there is no line), for lines not ending in a carriage return |
| LogLines.RecordsAppendLine | audit.go:166-167 | appending a record and its newline adds one line to what the verifier sees and changes no other |
| LogLines.OverlongExactly | audit.go:205-206 | scanning fails on exactly the files of which some 1,048,576 bytes in a row hold no newline |
| LogLines.ReadsBackExactly | audit.go:87-91 | a line after whole lines is read back from the tail if and only if it takes, with the newlines after it, no more than 65,536 bytes |
| LogLines.TailKeepsCarriageReturn | audit.go:95-103 | every last line that ends in a carriage return and holds another byte reads differently backwards and forwards, whether or not it fits in the tail |
| LogLines.ScansAgree | audit.go:76-104 | for every file, the two scans end in the same line if and only if there is no line; or the last one does not end in a carriage return and fits in 64 KiB with the newlines after it; or it is a carriage return alone and the line before it reads the same; or it is carriage returns alone of which the tail misses exactly one |
| LogLines.ReadLastLine | audit.go:76-104 | the two loops over the tail compute the last non-empty line of the last 64 KiB |
| AuditLog.SignIsGood | audit.go:132-175 | a record written from a resumable state follows the log's records with the next number and leaves a resumable state |
| AuditLog.ReopenKeepsIndex | audit.go:60-72 | a restart after a run reads back the number and the hash the logger had reached |
| AuditLog.RunAppends | audit.go:132-175 | every run of writes, failed writes and restarts appends one chained record for each success, numbered without gaps |
| AuditLog.RunTells | audit.go:138-156 | the lines that a run adds to the log tell, one each and in order, exactly what its successful writes were to report |
| AuditLog.RunVerifies | audit.go:198-242 | after every such run the verifier accepts, and its chained count is the one at the start plus the successful writes |
| AuditLog.StartCases | audit.go:42-44 | empty logs, logs wholly from before the chain, and accepted logs that end in a chained record can be resumed |
| AuditLog.ResumeCondition | audit.go:60-72 | the first write after a restart keeps an accepted log accepted if and only if the number read back is that of the last chained record, or there is no numbered record yet |
| AuditLog.LegacyAfterChained | audit.go:60-72 | the condition can fail, with a sound format: there is a readable, accepted file ending in a record from before the chain that is no longer accepted after a restart and one successful write |
| AuditLog.AuditLogger.constructor | audit.go:36-50 | opening takes number and hash from the last line of the file's tail, or starts at genesis |
| AuditLog.AuditLogger.Sign | audit.go:132-175 | the file and the remembered number and hash change together, and not at all when the record cannot be encoded or written |
| RateLimit.RecentIsWindow | policy.go:213-219 | with no grant in the future the kept times are those of the window that ends now |
| RateLimit.GrantKeepsBound | policy.go:221-224 | if no one-minute window holds more than the limit, none does after one more request |
| RateLimit.GrantsExactly | policy.go:213-222 | a request is granted if and only if fewer grants than the limit fall in the last 60 seconds |
| RateLimit.BucketRefinesHistory | policy.go:209-226 | for every clock that never decreases the bucket decides each request as a count over all grants ever made would |
| RateLimit.HistoryBounded | policy.go:209-226 | in every run no one-minute window holds more than the limit; rejections leave no trace |
| RateLimit.KeepHolds | policy.go:209-226 | what is kept stays sorted, within the limit and equivalent to the full history |
| RateLimit.RateBucket.Compact | policy.go:212-220 | filtering in place over the same array keeps exactly the recent times, in order |
| RateLimit.RateBucket.Allow | policy.go:209-226 | grants exactly when fewer than the limit of the kept times are recent, and keeps these and the new grant |
| RateLimit.CeilingHolds | policy.go:127-194 | no minute ever holds more than 120 admissions of one key, whatever the times of the requests, if and only if a limit above 0 is configured |
| RateLimit.AdmittedAtOnce | policy.go:127-130 | of any number of requests at one time as many are admitted as the configured limit and the ceiling of 120 allow, and no fewer |
| RateLimit.AllAdmitted | policy.go:190-194 | with a limit of 0 (the default) or less every request is admitted |
| CallerPolicy.PeerPolicy.CheckRate | policy.go:190-202 | a key is granted as its own full history of grants calls for and no other key's history or bucket changes; buckets stay sorted and within the limit, and no minute ever holds more grants of a key than the limit |
| CallerPolicy.VerdictsExactly | policy.go:157-188 | for every policy and peer, each verdict in terms of the values that the rules of each kind name: a platform or signing identity or team counts only with its validated signature, a hash up to letter case, a path as it stands or resolves |
| CallerPolicy.ConfiguredPolicy | policy.go:127-138 | a configured policy admits the four platform tools and whatever the configured rules name, hardened callers only if it says so, and everybody when it is not enforced |
| CallerPolicy.ClaimedIdentityIsIgnored | policy.go:59-76 | for a peer without a validated signature the verdict does not depend on the identity it claims |
| CallerPolicy.OnlyPlatformToolsByDefault | policy.go:47-57 | without rules by hash or path only peers with a validated signature are admitted, by default only the four platform tools, and hardened ones when that is required |
| StallDetector.AlertIsSound | agent.go:330-358 | an alert comes with three non-completions, no completion among them, all within three minutes of the first |
| StallDetector.OneAlertPerEpisode | agent.go:341-350 | one episode raises at most one alert |
| StallDetector.FourMissesAlert | agent.go:287-293 | four non-completions within three minutes with no completion among them raise an alert, or their episode has raised one |
| StallDetector.ThreeMissesAlert | agent.go:330-358 | of three successive non-completions within three minutes, no completion among them, one raises an alert (or their episode already had its three) if and only if the first was not the second of an episode whose window ended before the next |
| StallDetector.ThreeMissesCanStayQuiet | agent.go:287-293 | a trace of the excepted kind: three within 82 seconds and no alert |
| StallDetector.UnrelatedErrorsChangeNothing | agent.go:338-340 | errors that say nothing about the sensor can be taken out of a trace without changing an alert or the state |
| StallDetector.Detector.NoteBiometricOutcome | agent.go:330-358 | the detector's alerts and state are those of the trace it has seen |
| AcceptLoop.InvHolds | main.go:689-750 | in every run the wait group counts the open connections and the one being started |
| AcceptLoop.ClosedAfterLastConnection | main.go:705-748 | whatever signals arrive and whenever the idle timer fires, the audit logger is closed only after every accepted connection has finished, so none makes an audit call after that |
| AcceptLoop.HangUpsChangeNothing | main.go:694-698 | taking every hang-up signal out of a run leaves a run to the same state |
| AcceptLoop.ListeningExactly | main.go:693-714 | the listener is open if and only if no signal to end has come and the idle timer, which there is only under launchd, has not expired |
| AcceptLoop.LoopEndsExactly | main.go:717-732 | the accept loop has ended if and only if accepting met an error that is no timeout or, under launchd, any error |
| AcceptLoop.ShutdownIsNotStuck | main.go:731-749 | once the listener is closed and until the agent has stopped, some step towards the end can be taken, and waiting for connections is only ever part of the drain |
| AcceptLoop.ClosingComesNearer | main.go:689-749 | once the listener is closed it stays closed, and every step towards the end lessens what is left while no other step changes it |
| AcceptLoop.ShutdownIsBounded | main.go:705-749 | however a run goes on after the listener is closed, with signals, timers and connections still at work, it takes no more steps towards the end than two for each connection being served and seven for the accept loop |
| PlistFlags.ExtractRunFlags | plist_darwin.go:170-199 | the loop over the argument vector collects the flags that the recursive definition keeps |
| PlistFlags.EveryVectorIsWritten | plist_darwin.go:170-199 | every argument vector is a sequence of settings and other words, but for one flag without its value at the end |
| PlistFlags.ExtractedSettings | plist_darwin.go:35-53 | of such a vector the extraction keeps exactly the audit log, rate limit, caller list, peer-check and verbosity settings, each with its value and in their order |
| PlistFlags.MeaningOfSettings | main.go:104-111 | such a vector parses if and only if it holds no other word, and to the last setting of each kind |
| PlistFlags.MigrationIsIdempotent | plist_darwin.go:168-199 | for every argument vector, even with values that look like flags, migrating the migrated vector changes nothing |
| PlistFlags.MigrationPreservesMeaning | plist_darwin.go:35-53 | the migrated vector parses to the old settings of the preserved flags, last one winning, plus `-launchd`, and to no `-l` |
| PlistFlags.MigrationDropsHardening | plist_darwin.go:35-45 | beyond the listener's own flags a migration changes nothing if and only if `-require-hardened-callers` was not given |
| PlistFlags.HardeningIsLost | plist_darwin.go:35-45 | a vector that parses with the flag, and whose migrated form parses without it |
| PlistFlags.SocketAgreement | plist_darwin.go:549-557 | for every vector that parses with a `-l`: when the first argument that reads `-l` is that flag, the socket taken over is the one the agent listened on if and only if the first and the last `-l` agree; otherwise what is taken over is empty or the name of a flag, and equal only to a socket so named |
| PlistFlags.FirstSocketIsKept | plist_darwin.go:434-438 | a vector with two sockets: the first is taken over, the last was in use |
| PlistFlags.ValueIsMisread | plist_darwin.go:549-557 | a vector with one socket in which another flag's value reads `-l`: `-l` itself is taken over as the socket |
| PlistXml.UnescapeEscape | plist_darwin.go:242-247 | escaping has an inverse on every text |
| PlistXml.EscapeExactly | plist_darwin.go:244-247 | escaping works character by character, writes `&`, `<` and `>` as their entities and every other character as it is |
| PlistXml.EscapedIsPlain | plist_darwin.go:242-247 | escaped text holds no bare markup and is empty only for empty text |
| PlistXml.NormalizeIsIdentity | plist_darwin.go:203-240 | a text passes a reader's end-of-line handling unchanged if and only if it holds no carriage return |
| PlistXml.TokenizeWritten | plist_darwin.go:203-240 | tokenizing written items gives them back |
| PlistValues.ReadEmitted | plist_darwin.go:203-240 | a reader recovers every value from its items, whatever follows them |
| PlistValues.ReadPrinted | plist_darwin.go:203-240 | reading a printed document gives back its value, for all legal text |
| PlistMigration.RenderPlist | plist_darwin.go:203-240 | the rendered text, loop over extra arguments included, is the printed document of the wanted property list |
| PlistMigration.ReadRendered | plist_darwin.go:116-166 | reading a rendered plist gives back the binary, `-launchd`, the extra arguments in order, the socket and the log path |
| PlistMigration.RenderedSays | plist_darwin.go:213-239 | a rendered plist says, to any reader that goes by the keys: the label, the arguments, one Unix socket of mode 384 (0600), a background process, one log for both streams, and nothing that starts or keeps the agent |
| PlistMigration.InterpretExactly | plist_darwin.go:133-164 | what is taken from a property list, key by key; a value of the wrong type counts as missing |
| PlistMigration.RenderedIsActivated | plist_darwin.go:497-512 | every rendered plist classifies as socket-activated and the login-time check leaves it alone |
| PlistMigration.ActionsExactly | plist_darwin.go:497-512 | the login-time check installs a plist if and only if there is none, and leaves every other as it is, told apart by `-launchd` with sockets and by `-l` |
| PlistMigration.Classify | plist_darwin.go:89-114 | the loop over the arguments yields the mode that membership of `-l` and `-launchd` determines |
| PlistMigration.MigrationEndToEnd | plist_darwin.go:408-484 | the file a migration wrote reads back as the migrated vector, is socket-activated, left alone by the login-time check and by a second migration, and means what the old one meant |
| PlistMigration.MigratesExactly | plist_darwin.go:418-432 | which plists a migration rewrites, passes over or refuses, by their label, arguments and sockets |
| PlistMigration.TakenOver | plist_darwin.go:434-446 | the migrated file starts the old binary and logs where the old one did, standard error first, and falls back where the old one was silent |
| PlistMigration.MigrationKeepsSocket | plist_darwin.go:434-438 | the socket read back from the file a migration wrote is the one the old agent listened on if and only if the first `-l` is a flag of the agent and agrees with the last (or, where nothing follows the first `-l`, that socket is the default) |
| PointCodec.PaddedIsFixed | secureenclave_darwin.go:156-164 | left padding restores exactly the zeros that the integers' short form dropped |
| PointCodec.MarshalPoint | secureenclave_darwin.go:156-164 | copying both short forms into a zeroed buffer yields the uncompressed form of section 2.3.3 of SEC 1 |
| PointCodec.MarshalledExactly | secureenclave_darwin.go:156-164 | the form byte by byte: a 4, then both coordinates with the most significant byte first |
| PointCodec.PrimeOfCurve | secureenclave_darwin.go:140-154 | coordinates are below 2^256 - 2^224 + 2^192 + 2^96 - 1, the prime of P-256 (section 3.2.1.3 of SP 800-186) |
| PointCodec.ParseMarshalled | secureenclave_darwin.go:140-164 | marshalling then parsing recovers every point of the curve |
| PointCodec.MarshalParsed | secureenclave_darwin.go:140-164 | parsing then marshalling recovers the 65 bytes |
| PointCodec.SameBytesSamePoint | keystore_fs.go:208-210 | comparing the byte forms of two points compares the points |
| CallerRules.PrintParse | policy.go:78-93 | a printed rule reads back as itself if and only if it is not of the platform kind and its value is trimmed and not empty |
| CallerRules.ParsesExactly | policy.go:264-290 | a line with a colon reads as a rule if and only if the keyword before it, trimmed and in any case, is one of its kind and the trimmed value after it is not empty |
| CallerRules.BarePathsParse | policy.go:266-273 | a line without a colon reads as a rule if and only if it begins with a slash, and stands for that path |
| CallerRules.ParsedIsPrintable | policy.go:264-290 | whatever is read from a trimmed line prints and reads back |
| CallerRules.KeyCallersRoundTrip | main.go:291-311 | the rules of every accepted command-line list, printed and comma-joined, read back as the same list |
| CallerRules.ParseKeyCallers | main.go:291-311 | the loop over the parts yields all rules in order or the first error |
| CallerRules.ListsExactly | main.go:291-311 | a list is accepted if and only if every part that is not blank is a rule, and gives these rules in their order |
| CallerRules.SplitExactly | main.go:298-299 | a list is cut at every comma |
| CallerRules.TrimmedOff | policy.go:274-278 | trimming takes off white space at both ends and nothing else |
| KeyFiles.LoadKeyfile | keystore_fs.go:177-226 | loading accepts a record exactly when version, label, keys and rules check out, and its byte comparison of public keys compares the keys |
| KeyFiles.LoadsExactly | keystore_fs.go:177-226 | a keyfile loads if and only if it decodes, has version 1, is named like the file, its key data yields a public key, its public key is that key in 65 bytes, and every rule reads; the loaded key has the touch flag, key data and rules of the record |
| KeyFiles.WrittenReloads | keystore_fs.go:76-95 | a written key loads as itself if and only if all its rules are printable |
| KeyFiles.LoadedRewrites | keystore_fs.go:177-226 | a loaded key is named after its file, and its public key is the one its key data yields; writing it again and loading that gives it back if and only if each of its keyfile's rules holds a colon or is trimmed |
| KeyFiles.PaddedPathIsChanged | policy.go:264-273 | for every key and every bare path: written with a space after it the rule loads with the space, and after rewriting without it |
| KeyStore.RunRefines | keystore_fs.go:64-160 | from any directory, every run of Generate, Delete and DeleteAll does to the map of labels to loadable keys (and to the taken labels) what the map's own operations do |
| KeyStore.RemoveUndoesCreate | keystore_fs.go:131-140 | deleting a generated key gives back the directory as it was |
| KeyStore.CommandLineRulesReload | keystore_fs.go:81-101 | a key generated with rules that the command line accepted is in the store with exactly these rules |
| KeyStore.ListingIsUnique | keystore_fs.go:127 | a map of keys has one listing in strictly increasing order of labels |
| KeyStore.ListedExactly | keystore_fs.go:107-129 | a key is listed if and only if the file named after it is there, is no folder, and loads as that key |
| Names.LessExactly | keystore_fs.go:127 | the order of labels is decided by the first character in which they differ, or else the shorter label is first |
| KeyStore.LabelsNameFiles | main.go:230-244 | a label is valid if and only if it is not empty and its file name holds no separator and takes at most 69 bytes |
| KeyStore.RemoveAllExactly | keystore_fs.go:142-160 | deleting everything leaves exactly the names that do not end in `.json` and the folders that are not empty, as they were |
| KeyStore.ListedNamesDiffer | keystore_fs.go:107-129 | no two listed keys share a label, which is what the agent's locks and buckets go by |
| KeyStore.MatchedIsListed | agent.go:158-180 | a request is matched with the first listed key whose public key has the wanted wire form, with that key's label, touch flag and rules, and with none only if there is none |
| KeyStore.FilesystemKeyStore.Generate | keystore_fs.go:64-105 | a key is made exactly when the label is valid, its file name free, and key and file could be made; nothing is ever overwritten; each refusal has its cause |
| KeyStore.FilesystemKeyStore.List | keystore_fs.go:107-129 | every key that can be loaded, once, in strictly increasing order of labels, and nothing else |
| KeyStore.FilesystemKeyStore.Delete | keystore_fs.go:131-140 | a missing key is no error, an invalid label touches nothing, a folder that is not empty is reported |
| KeyStore.FilesystemKeyStore.DeleteAll | keystore_fs.go:142-160 | every keyfile goes, one that cannot be removed does not keep the others and is reported, other files stay |

## Left out

- Agents.Agent.SignFor: serves one request at a time, so its mutexes say that locks are free, taken and given back in order; what concurrent requests do is the step system's part.
- AuditLog.RunVerifies: takes files whose lines are whole, shorter than 1 MiB for the verifier and, with the newline after it, at most 64 KiB for the last line; the sequence number does not wrap at 2^64.
- PlistMigration.ReadRendered: is about text without carriage returns, which a reader would change; it covers elements, text and the predefined entities, not numeric character references or CDATA.
- PlistFlags.MigrationPreservesMeaning: is about space-separated flags of a running agent, not `=value` or double-dash forms, and takes values as text: that of `-rate-limit` is not read as a number.
- PlistMigration.MigrationKeepsSocket: leaves out sockets named like a flag.
- StallDetector.FourMissesAlert: takes times that do not decrease; the code reads a monotonic clock.
- KeyStore.RunRefines: takes the Secure Enclave at its word, that the public key it returns is the one its key data yields.
- Torn and partial writes, and writers other than the agent, in the audit log and in the key directory.
- JSON, base64, SHA-256, the curve's equation and key derivation are parameters with the round trips they promise; for JSON these take texts that are valid UTF-8.
- Errors of the file system other than a name that exists or is missing, a file that cannot be written and a folder that cannot be removed; file modes; case-insensitive names; names with a NUL.
- Symbolic links in caller rules are resolved by an abstract function; case folding of hashes covers the letters that fold to ASCII.
- How an error message is told to be a prompt that was not completed: the detector is given the kind of outcome.
- Notifications, debug output, launchctl, backups and the plist's atomic replacement, reading it through plutil.
- Managed preferences, code-signing and socket credentials, launchd's sockets, the Secure Enclave's own calls.
- A logger or policy that is absent (nil), which the code treats as one that does nothing, and the logger on standard error.
- The store lock, which signing only ever takes for reading; the SSH wire protocol; listing and status commands.
