# ThisConnect: a verified model

ThisConnect keeps an openvpn tunnel off the machine's default routes and offers it only through local
SOCKS5 and HTTP CONNECT front ends. This project models the parts whose correctness is a statement about
every run, and proves those statements in Dafny.

- **Tunnel policy** (`Kernel`, `Plan`, `PlanSafety`, `PlanReturns`, `PlanExact`, `Reassertion`, `Lifetime`,
  `Reconcile`, `PolicyManager`, `PlanVerdicts`, `FlushWindow`, `TeardownWindow`, `ExposureLimits`, `PolicyRunner`). The
  kernel is two lists per address family, walked as Linux walks them.
  The command runner is adversarial: a mutating command may act or not, and report anything, independently;
  a probe may fail, but tells the truth when it reads. `Plan`, `Reconcile` and `PolicyManager` give the
  algorithms as functions that log the machine after every command; `PolicyRunner.Engine` is the code as
  loops, proved equal to those functions; the other modules are about every entry of the log.
- **Management channel** (`Codec`, `LineReads`, `Escape`, `Actor`, `MgmtSystem`, `MgmtRuns`, `StrayLines`,
  `Tunnel`, `TunnelFeed`). Line framing over arbitrary
  reads, command lines against openvpn's lexer, the one-in-flight actor opposite a peer, and the tunnel
  state cell. `MgmtSystem` is a step relation between actor, wire and peer; `TunnelFeed` ties what the actor
  publishes to the bytes it read.
- **Proxy front ends** (`Limiter`, `Socks5`, `Socks5Framing`, `HttpHead`, `HttpConnect`, `HttpRequest`, `HttpSpelling`,
  `HttpFront`, `HttpRefusals`, `Target`, `FrontEnds`, `Admission`, `Overlap`). The shared
  token-bucket limiter against an unbounded reference, the two parsers against encoders written from the
  RFCs, and both front ends on one limiter.
- **Sessions** (`Egress`, `SessionCell`, `SessionMoves`, `ConnectRun`, `FirstConnect`, `Session`). Versioned handles under every
  interleaving of counter bump and slot write, the session's one state, and one connect attempt with its teardown.
- **Kernel messages** (`Walkers`). The two buffer walkers that trigger re-assertion.

Functions specify, methods run. Where the source changes something step by step, a method or class does
too, and its contract ties the new state to the specification function that the lemmas are about.

## Where the code and its documentation disagree

The model follows the code. Each entry names the witness and the lemma with the exact condition.

- "A caller holding any other error holds a clean machine" (`daemon/src/policy/mod.rs:184-186`) is false
  over residue: `PolicyManager.ManagedErrorOverResidue`. `PolicyManager.ManagedErrorsLeaveNothingIff` gives the
  machines on which it is true for every runner; `PlanReturns.ErrorsLeaveNothingIff` does so for the plan install
  inside it, which has no flush.
- "Removed after everything else, so no window exists" (`daemon/src/policy/linux.rs:116-119`) holds of installs from a
  clean machine and of teardowns from any prefix of the policy. It does not hold of a teardown after someone else
  deleted the backstop: `TeardownWindow.TeardownOpensAWindow` with `TeardownWindow.TeardownExposesIff`. Nor does it
  hold of the cleanup that precedes an install, which flushes the backstop first
  (`daemon/src/policy/linux.rs:78-91`): `FlushWindow.FlushOpensAWindow` with `FlushWindow.ManagedInstallExposesIff`
  for a flush that works, and `ExposureLimits.NoRunnerExposesIff` for every runner.
- Checking every step before touching it is meant to keep re-assertion from multiplying rules
  (`daemon/src/policy/plan.rs:257-258`), and does not when the check cannot be read:
  `Reassertion.DuplicateCondition` says exactly when, and `Reassertion.DuplicateBlocksTeardown` what it costs.
- The inbound line limit and the 8 KiB head limit depend on where the reads fall:
  `LineReads.SameStreamTwoFates` with `LineReads.AlwaysAcceptedIff` and `LineReads.NeverAcceptedIff`, and `HttpHead.PacketsDecide` with
  `HttpHead.AcceptedIff`.
- Five failures per minute (`proxy/src/socks5.rs:281-282`) are ten in the first minute: `Limiter.BoundIsTight`.
  `Limiter.FailureRateBound` is the bound that holds, and `Limiter.FiveAtMostIff` says for which windows it is five.
- A reconnect between the moment a session becomes ready and the moment its supervisor reads the generation
  goes unseen: `Tunnel.EarlyFlapGoesUnseen` with `Tunnel.UnbrokenSinceReadyIff`.
- The guard against one command's tail becoming the next command's reply (`daemon/src/mgmt/client.rs:365-372`)
  works exactly while nothing is outstanding: `StrayLines.StraysAreIgnoredIff`, with
  `StrayLines.LateTailBecomesNextBody` and `StrayLines.StrayEndingBecomesReply` for what happens otherwise.
- A late slot write can hide a live tunnel: `Egress.LateWriteHidesLiveTunnel` with `Egress.AvailableIff`.

## Model

| member | source | states |
|---|---|---|
| `Kernel.WalkByPresence` | daemon/src/policy/linux.rs:13-30 | Walking an ordered rule list reaches table 218's first route, the backstop or the foreign rules, decided only by which of our rules are present and whether the table is empty |
| `Kernel.LookupByPresence` | daemon/src/policy/linux.rs:13-30 | The lookup from the tun address is decided by which of the four steps stand; the last case is the exact leak condition |
| `PlanSafety.NewPlanAcceptsOrdered` | daemon/src/policy/plan.rs:142-157 | Comparing neighbours accepts exactly the plans in which any two steps of a family, at any distance, are in rank order |
| `PlanSafety.LinuxPlanOrdered` | daemon/src/policy/linux.rs:67-114 | The Linux plan is accepted for every tunnel, with and without IPv6 |
| `PlanVerdicts.LinuxCommands` | daemon/src/policy/linux.rs:120-253 | The four commands of a family, in order, with the priorities, table and metrics the kernel is given |
| `PlanSafety.ApplyCopies` | daemon/src/policy/linux.rs:120-253 | What each step's apply command does to the number of copies of every step: rules stack up, a taken metric refuses a second route |
| `PlanSafety.UndoCopies` | daemon/src/policy/linux.rs:120-253 | Each undo command removes one copy of its own step and none of any other |
| `PlanSafety.EvaluateRun` | daemon/src/policy/plan.rs:78-113 | A read-back changes nothing and succeeds exactly when it was readable and the step is as wanted |
| `PlanSafety.InstallStepRun` | daemon/src/policy/plan.rs:204-217 | Under any runner an install step can only add its own step, and `Ok` means it stands |
| `PlanSafety.UndoStepRun` | daemon/src/policy/plan.rs:223-231 | Under any runner a removal can only take its own step away, and `Ok` means it is gone |
| `PlanSafety.TeardownClosed` | daemon/src/policy/plan.rs:219-231 | A teardown of any ordered plan keeps each family's steps a prefix of the plan after every command; `Ok` means none is left |
| `PlanSafety.InstallClosed` | daemon/src/policy/plan.rs:180-202 | The same for installs, rollback included; `Ok` means all stand, any error but a failed rollback means none does |
| `PlanSafety.InstallFailClosed` | daemon/src/policy/plan.rs:142-231 | After every single command of an install or its rollback, no family with a step standing looks its tun address up in `main`; `Ok` routes through the tunnel, other errors leave a clean machine, a failed rollback leaves a protected one |
| `PlanSafety.TeardownFailClosed` | daemon/src/policy/plan.rs:219-231 | The same at every instant of a teardown from any prefix; `Ok` means clean |
| `TeardownWindow.TeardownOpensAWindow` | daemon/src/policy/linux.rs:116-119 | A live session whose backstop someone deleted: a teardown with every command working puts its address on `main` while the floor stands |
| `TeardownWindow.TeardownExposesIff` | daemon/src/policy/plan.rs:219-231 | With every command working and no duplicates, some instant of a teardown has a step standing and its address on `main`, if and only if the backstop was gone, nothing foreign refuses the address, and the rule or the floor stood, or the route while the other family goes first |
| `PlanReturns.TeardownFromAnywhere` | daemon/src/policy/plan.rs:223-231 | From any start, `Ok` means every step asked for is gone and the others are untouched |
| `PlanReturns.InstallFromAnywhere` | daemon/src/policy/plan.rs:180-202 | From any start, `Ok` means all steps stand; another error clears the steps reached and leaves the later ones as found |
| `PlanReturns.CleanErrorCondition` | daemon/src/policy/plan.rs:180-202 | For one run of the plan install: a plain error leaves nothing exactly when nothing beyond the failing step stood before |
| `PlanReturns.ErrorOverResidue` | daemon/src/policy/plan.rs:180-202 | A concrete machine and runner for the plan install alone: plain error, stale rule standing, address on `main` |
| `PlanReturns.ErrorsLeaveNothingIff` | daemon/src/policy/plan.rs:180-202 | For every runner, a plan install that fails with anything but a failed rollback leaves nothing, if and only if nothing of the plan beyond its first step stands beforehand or the first step is duplicated |
| `PlanReturns.TeardownIdempotent` | daemon/src/policy/plan.rs:219-231 | Once nothing is left, a teardown with readable probes changes nothing and says `Ok` |
| `PlanReturns.TeardownSucceedsIff` | daemon/src/policy/plan.rs:223-231 | With a runner that does what it is told, a teardown succeeds exactly when no step is duplicated |
| `PlanVerdicts.TeardownVerdict` | daemon/src/policy/plan.rs:219-231 | From any machine and under any runner, a teardown succeeds exactly when each removal could be started, whatever it exited with, at most one copy stood and was removed, and that could be read; its error is `Spawn` if the last command could not be started, else a failed verification |
| `PlanVerdicts.InstallVerdict` | daemon/src/policy/plan.rs:180-217 | From any governable machine and under any runner, an install succeeds exactly when each command exited zero, could be read back, and acted or was not needed; otherwise the first step that did not names the error, as the cause and not the rollback of a failed rollback |
| `PlanVerdicts.ReassertVerdict` | daemon/src/policy/plan.rs:249-283 | Under any runner a pass reports, in plan order, exactly which missing or unreadable steps were restored and which failed, decided by the runner's answers and what stood before |
| `PlanVerdicts.ManagedInstallOkIff` | daemon/src/policy/mod.rs:187-195 | On a clean machine the manager's install succeeds exactly when every flush could be started, whatever it exited with, and every step's command acted, exited zero and could be read back |
| `Reassertion.ReassertAppliesExactlyMissing` | daemon/src/policy/plan.rs:249-283 | With readable probes a pass issues exactly the apply commands of the missing steps, in plan order, and none when nothing is missing |
| `Reassertion.ReassertNeverExposes` | daemon/src/policy/plan.rs:259-283 | From any surviving subset, under any runner, no command of a pass puts an address that was off `main` onto `main` |
| `Reassertion.AnySingleDeletionIsCovered` | daemon/src/policy/linux.rs:13-30 | Removing any one step of a full policy keeps the address off `main` |
| `Lifetime.SessionStaysOffMain` | daemon/src/policy/plan.rs:249-283 | Over any number of rounds of edits by others, each taking at most one step from a family, and passes under any runner, the address is never looked up in `main` as long as no pass but the last reports a failure |
| `Reassertion.ReassertRestoresAll` | daemon/src/policy/plan.rs:259-283 | If commands work, every missing step is back, exactly those are reported, none as failed |
| `Reassertion.NoFailureMeansAllStand` | daemon/src/policy/plan.rs:233-283 | Under any runner, a pass that reports no failure leaves every step standing |
| `Reassertion.SecondPassIsQuiet` | daemon/src/policy/plan.rs:240-247 | After a successful pass the next one only probes, changes nothing and is quiet |
| `Reassertion.DuplicateCondition` | daemon/src/policy/plan.rs:249-283 | A standing rule gains a copy exactly when its probe could not be read and the add took effect |
| `Reassertion.ReassertNeverDuplicates` | daemon/src/policy/plan.rs:249-283 | With readable probes no pass adds a copy of a step that has one |
| `Reassertion.DuplicateBlocksTeardown` | daemon/src/policy/plan.rs:223-283 | After such a duplicate even a fully responsive runner cannot complete the teardown |
| `Reconcile.StaleCleanupReads` | daemon/src/policy/linux.rs:93-99 | The enumeration changes nothing and is empty exactly on a clean machine |
| `Reconcile.LegibleIff` | daemon/src/policy/linux.rs:318-359 | A listing is given exactly when all four reads got an answer, a table that was never created being one; any other failed read is an error, told apart by whether the command started |
| `Reconcile.BestEffortOkIff` | daemon/src/policy/reconcile.rs:50-67 | The removals succeed exactly when every one could be started, however it exited; they are issued in order, all of them or up to the first that could not |
| `Reconcile.ReconciledIsClean` | daemon/src/policy/reconcile.rs:30-48 | Under any runner, success is returned only for a machine that is clean |
| `Reconcile.PassSweeps` | daemon/src/policy/linux.rs:277-340 | One pass whose reads are answered and whose removals act, whatever they report, removes one copy of each rule and the whole table, in both families |
| `Reconcile.PassCount` | daemon/src/policy/reconcile.rs:30-48 | With reads answered, missing tables included, and removals that act, reconciliation succeeds exactly when no multiplicity exceeds four; passes reported are the largest one, removals exactly the ones needed; otherwise residue remains |
| `PolicyManager.CleanupMakesClean` | daemon/src/policy/linux.rs:78-91 | What one dead session can leave is removed whole by the pre-install cleanup |
| `PolicyManager.ManagedInstallFromClean` | daemon/src/policy/mod.rs:184-195 | From a clean machine, under any runner and counting the flush: protected after every command, a working tunnel on `Ok`, clean again on every error but a failed rollback |
| `PolicyManager.ManagedInstallFailClosed` | daemon/src/policy/mod.rs:184-195 | Over one session's residue, once a working cleanup is through, every command of the install that follows is fail-closed under any runner, and its return values mean what they say |
| `PolicyManager.ManagedErrorOverResidue` | daemon/src/policy/mod.rs:184-195 | A stale rule and a flush that cannot be started: plain error, rule standing, address on `main` |
| `PolicyManager.ManagedErrorsLeaveNothingIff` | daemon/src/policy/mod.rs:184-195 | For every runner, an error of the manager's install other than a failed rollback leaves nothing, if and only if nothing of the policy stands beforehand |
| `FlushWindow.FlushOpensAWindow` | daemon/src/policy/linux.rs:78-119 | One dead session's whole policy and every command working: after the second flush the floor stands and the address is on `main` |
| `FlushWindow.ManagedInstallExposesIff` | daemon/src/policy/linux.rs:78-91 | With a working flush and any runner after it, some instant of the manager's install has a step standing and its address on `main`, if and only if a step other than the backstop stood beforehand and nothing foreign refuses the address |
| `ExposureLimits.SafeFromEveryRunner` | daemon/src/policy/mod.rs:187-195 | Where the condition below fails, no runner brings about an exposed instant |
| `ExposureLimits.SomeRunnerExposes` | daemon/src/policy/mod.rs:187-195 | Where it holds, a runner that does |
| `ExposureLimits.NoRunnerExposesIff` | daemon/src/policy/mod.rs:187-195 | On a governable machine no runner at all can make the manager's install expose a family, if and only if nothing but its backstop stood, or something foreign refuses the address, or two backstops are left after its flush |
| `PlanExact.UndoInvertsApply` | daemon/src/policy/linux.rs:120-253 | Each step's undo command gives back the very machine its apply command was given, if the step was not there |
| `PlanExact.TeardownRestores` | daemon/src/policy/plan.rs:223-231 | A teardown that says `Ok` gives back the exact machine the plan was built on |
| `PlanExact.InstallRestores` | daemon/src/policy/plan.rs:180-202 | Under any runner, an install from a machine without the plan builds exactly the plan, or fails and leaves the machine exactly as found, foreign rules and order included, or says the rollback failed |
| `PlanExact.ManagedInstallRestores` | daemon/src/policy/mod.rs:184-195 | The same through the manager, flush included, on a machine with no trace of any session |
| `PolicyRunner.Engine.Check` | daemon/src/policy/plan.rs:78-113 | The read-back as it runs computes the specification's verdict and log |
| `PolicyRunner.Engine.ApplyStep` | daemon/src/policy/plan.rs:204-217 | One install step as it runs |
| `PolicyRunner.Engine.InstallPlan` | daemon/src/policy/plan.rs:180-202 | The install loop is the specification, so it is fail-closed after every command and its return values mean what they say |
| `PolicyRunner.Engine.TeardownPlan` | daemon/src/policy/plan.rs:223-231 | The reverse loop likewise |
| `PolicyRunner.Engine.ReassertPlan` | daemon/src/policy/plan.rs:259-283 | The re-assertion loop likewise: no failure means all stand, and it exposes nothing |
| `PolicyRunner.Engine.ListStaleIn` | daemon/src/policy/linux.rs:318-359 | Enumerating one family as it runs; a failed read is an error, never "nothing there" |
| `PolicyRunner.Engine.RunBestEffort` | daemon/src/policy/reconcile.rs:50-67 | The removal loop: it succeeds exactly when every command could be started, whatever it exited with |
| `PolicyRunner.Engine.ReconcileMachine` | daemon/src/policy/reconcile.rs:30-48 | The bounded pass loop is the specification; success leaves the machine clean |
| `Limiter.KeptTokens` | proxy/src/socks5.rs:309-319 | Dropping refilled peers changes no peer's tokens |
| `Limiter.EarlierClock` | proxy/src/socks5.rs:240-262 | A clock that reads no later than a peer's last update neither refills nor drains it, and a failure still costs one token |
| `Limiter.TokensAfter` | proxy/src/socks5.rs:240-335 | A failure charges its peer one token, forgives the evicted, and touches no one else |
| `Limiter.NeverTracksMore` | proxy/src/socks5.rs:309-335 | No legal call leaves more than 4096 peers tracked |
| `Limiter.RunTracksFew` | proxy/src/socks5.rs:309-335 | Nor does any legal run, however long |
| `Limiter.Refines` | proxy/src/socks5.rs:240-335 | Over any run at nondecreasing times, the bounded limiter leaves every peer at least the unbounded one's tokens and admits whatever it admits; without forced evictions they are indistinguishable |
| `Limiter.TokensSpent` | proxy/src/socks5.rs:240-335 | Conservation: tokens held plus failures recorded never exceed tokens before plus the refill |
| `Limiter.FailureRateBound` | proxy/src/socks5.rs:240-335 | A guarded, never evicted peer records at most 5 + T/12 failures in any T seconds |
| `Limiter.CheckedRateBound` | proxy/src/socks5.rs:301-335 | The same for a peer that asks before it records, with any calls of other peers in between |
| `Limiter.BoundIsTight` | proxy/src/socks5.rs:240-335 | For every n, an allowed run with 5 + n failures in 12n seconds |
| `Limiter.FiveAtMostIff` | proxy/src/socks5.rs:281-335 | At most five failures in every window of T seconds, if and only if T is less than twelve |
| `Limiter.FloodingCannotFlushAThrottle` | proxy/src/socks5.rs:265-335 | A throttled peer is evicted only alone, from a full map in which every tracked peer is throttled |
| `Limiter.MostRefilled` | proxy/src/socks5.rs:267-279 | The scan returns a tracked peer that no tracked peer outranks |
| `Limiter.MakeRoom` | proxy/src/socks5.rs:309-327 | The eviction loop frees exactly one slot, and never drops a peer with fewer tokens than one it keeps |
| `Limiter.AuthRateLimiter.HasCapacityAt` | proxy/src/socks5.rs:301-307 | Answers whether the peer has a token left |
| `Limiter.AuthRateLimiter.RecordFailureAt` | proxy/src/socks5.rs:309-335 | The map becomes what some legal call leads to; at most 4096 entries are kept |
| `Socks5.NegotiateDecodes` | proxy/src/socks5.rs:457-680 | For every well-formed transcript and anything after it: the verdict is the transcript's meaning, the bytes consumed and the bytes answered are the RFCs' |
| `Socks5.AcceptedIff` | proxy/src/socks5.rs:457-680 | On the wire, a transcript gets a target exactly when the wanted method was offered, the credentials are the configured pair under capacity where asked for, the command is CONNECT to a nonzero port, a name is 1 to 255 printable bytes, and the target is the very address, name or spelled address and the very port asked for, IPv6 only with the tunnel's |
| `Socks5.AcceptedIsEncoded` | proxy/src/socks5.rs:457-680 | Conversely every accepted stream begins with the encoding of a transcript meaning the returned target, consumed exactly; with authentication its credentials are the configured pair and there was capacity |
| `Socks5.TargetsAreDialable` | proxy/src/socks5.rs:593-680 | Every target has a usable port, is IPv6 only if the tunnel is, and a name is printable, 1 to 255 bytes and no address literal |
| `Socks5.CapacityComesFirst` | proxy/src/socks5.rs:508-543 | With authentication required only a peer with capacity is admitted, or charged |
| `Socks5.ChargedIff` | proxy/src/socks5.rs:508-543 | A failure is charged exactly when the exchange ends in a wrong pair |
| `Socks5Framing.CutShortIsIo` | proxy/src/socks5.rs:457-662 | A transcript cut anywhere before its verdict falls is an end of stream, with everything sent consumed |
| `Socks5Framing.GreetingFraming` | proxy/src/socks5.rs:481-506 | Another version or an empty method list is named as such, and answered with nothing |
| `Socks5Framing.AuthFraming` | proxy/src/socks5.rs:508-552 | So is another version of the credentials, after the method was answered |
| `Socks5Framing.RequestHeadFraming` | proxy/src/socks5.rs:567-632 | So are, of an admitted client, another version, a nonzero reserved byte and an unknown address type, in that order |
| `Socks5.Client.DoGreet` | proxy/src/socks5.rs:481-506 | The greeting as it runs: verdict, position and answer are the specification's |
| `Socks5.Client.ReadLengthPrefixed` | proxy/src/socks5.rs:554-565 | A length byte and that many more, or end of stream |
| `Socks5.Client.DoReadTarget` | proxy/src/socks5.rs:593-662 | Reading address and port as it runs |
| `Socks5.Client.DoRequest` | proxy/src/socks5.rs:567-591 | Reading the request as it runs, the address before the command is judged |
| `Socks5.DoAuthenticate` | proxy/src/socks5.rs:508-552 | One authentication attempt: a wrong pair, and nothing else, is charged to the peer, by one legal limiter call |
| `Socks5.DoNegotiate` | proxy/src/socks5.rs:457-479 | The whole exchange as it runs is the specification, in verdict, bytes consumed, bytes answered and charge |
| `HttpHead.FindTerminatorIn` | proxy/src/http.rs:365-370 | The scan finds the first CRLFCRLF or says there is none |
| `HttpHead.ReadHead` | proxy/src/http.rs:341-363 | The reading loop is the specification |
| `HttpHead.HeadIsExact` | proxy/src/http.rs:341-370 | A returned head ends at the stream's first terminator; head, terminator and pending are exactly the bytes read, at most 8191 + 1024 |
| `HttpHead.HeadIsBoundaryIndependent` | proxy/src/http.rs:341-363 | Two packetisations of one stream never give two heads |
| `HttpHead.AcceptedIff` | proxy/src/http.rs:341-363 | A stream is accepted exactly when no read fills the buffer to 8192 before the first terminator is complete |
| `HttpHead.AcceptedWithinLimit` | proxy/src/http.rs:341-363 | A terminator complete within 8192 bytes is always accepted, one after 8191 + 1024 never |
| `HttpHead.PacketsDecide` | proxy/src/http.rs:341-363 | For every stream in between, one packetisation is refused and another accepted |
| `HttpHead.Relay` | proxy/src/http.rs:257-275 | Pending bytes go upstream first, then the rest of the stream, and are counted |
| `HttpHead.NothingLostAfterTheHead` | proxy/src/http.rs:257-363 | Head, terminator and what reaches upstream are the whole client stream, in order |
| `HttpConnect.PortDecodes` | proxy/src/http.rs:607-618 | Every port is read back from its decimal spelling; zero and anything past 65535 are refused |
| `HttpConnect.AuthorityDecodes` | proxy/src/http.rs:549-605 | `host:port` gives that host and port, for every spelling of the port |
| `HttpConnect.BracketDecodes` | proxy/src/http.rs:549-589 | `[v6]:port` gives that address and port if the tunnel carries IPv6 |
| `HttpConnect.TargetCameFromAuthority` | proxy/src/http.rs:549-580 | Every target comes from an authority of one of those two shapes, with that host and port; a name only from the plain one |
| `HttpConnect.AuthorityIff` | proxy/src/http.rs:549-618 | A target is taken from an authority exactly when the authority spells it: plainly or bracketed, that host or the address it spells, that port, IPv6 only with the tunnel's |
| `HttpConnect.Ipv6RefusedIff` | proxy/src/http.rs:549-605 | A refusal for IPv6 means exactly that a tunnel with IPv6 would have been given an IPv6 target |
| `HttpConnect.TargetsAreDialable` | proxy/src/http.rs:549-618 | The same promise about targets as SOCKS5 |
| `HttpConnect.DoAuthorize` | proxy/src/http.rs:496-530 | Admitted exactly if nothing is asked for, or the configured pair is presented under capacity; a missing header is not a failure; a wrong pair is charged, by one legal limiter call, only to a peer with capacity |
| `HttpConnect.ConnectVerdict` | proxy/src/http.rs:306-324 | Who is admitted gets the verdict on the authority and no other; no header is a challenge whatever the capacity, a header without capacity is rate limited, any other header is a failure |
| `HttpConnect.ConnectTakesCredentials` | proxy/src/http.rs:306-324 | With authentication required, a target takes capacity and the configured pair |
| `HttpConnect.DoConnect` | proxy/src/http.rs:306-324 | Authorization, then the destination, as it runs; a failure is charged exactly when the verdict is a wrong pair |
| `HttpRequest.DoParseHeaders` | proxy/src/http.rs:381-408 | The loop over header lines is the specification |
| `HttpSpelling.HeadReadsBack` | proxy/src/http.rs:381-490 | Every request a client may send is parsed as the request it spells |
| `HttpSpelling.AcceptedIsSpoken` | proxy/src/http.rs:381-490 | Conversely every accepted head is the spelling of the request it is read as |
| `HttpSpelling.ParsedIff` | proxy/src/http.rs:381-490 | So a head is read as a request exactly when it spells it: CONNECT, an authority, HTTP/1.1 or 1.0, at most 64 fields with any blanks around their values, none framing a body, credentials at most once, names in any letter case |
| `HttpSpelling.RequestLineVerdict` | proxy/src/http.rs:410-450 | What any three words are answered with: CONNECT its target, another method with an absolute form or without its own error, an empty word, another version or a byte past ASCII malformed |
| `HttpSpelling.FieldsReadBack` | proxy/src/http.rs:381-408 | Header lines in order are taken as they are, up to 64, and are too many beyond that |
| `HttpSpelling.AmbiguousIff` | proxy/src/http.rs:470-490 | Refused for framing exactly if some name is content-length or transfer-encoding, or two are proxy-authorization, in any letter case |
| `HttpSpelling.CredentialsIff` | proxy/src/http.rs:506-516 | The credentials are the value of the first header of that name in any letter case, and none if there is none |
| `HttpSpelling.FieldOf` | proxy/src/http.rs:452-468 | Every accepted header line is a token, a colon, blanks, a value free of control bytes and of blanks at its ends, and blanks |
| `HttpFront.TerminatorIsFirst` | proxy/src/http.rs:365-370 | A spelled request ends at the stream's first CRLFCRLF, whatever follows |
| `HttpFront.RequestReadsBack` | proxy/src/http.rs:341-408 | A request of at most 8192 bytes, however spelled and in any packets, is read as exactly that request, and exactly what followed it is left for the destination |
| `HttpFront.NegotiateDecodes` | proxy/src/http.rs:306-324 | The verdict on the wire, exactly: a request with nothing asked of it, or offering the configured pair under capacity in its one proxy-authorization field, gets the verdict on its own authority; another is challenged if it offers nothing, rate limited without capacity, a failure otherwise |
| `HttpFront.NegotiateTakesCredentials` | proxy/src/http.rs:306-324 | Of any stream at all: with authentication required a target takes capacity and the configured pair in the head read; a wrong pair is noticed only of a peer with capacity that did not present it |
| `HttpFront.DoNegotiate` | proxy/src/http.rs:306-324 | Read, parse, authorize, judge the destination, as it runs |
| `HttpRefusals.NoHeadVerdict` | proxy/src/http.rs:341-363 | A stream without a head is malformed if it has fewer than 8192 bytes and too large otherwise, before anyone is asked for credentials |
| `HttpRefusals.LongLineIff` | proxy/src/http.rs:381-390 | A parsed head is too large exactly when its request line exceeds 1024 bytes |
| `FrontEnds.VerdictMeans` | proxy/src/socks5.rs:406-437 | Over either front end: a dialable target only to a peer that presented the configured pair and had capacity; a wrong pair only ever of a peer with capacity |
| `Admission.Socks5Admission` | proxy/src/socks5.rs:406-680 | A transcript on the wire is granted a target exactly if it is let through and asks for that target, and charged exactly if it gave a wrong pair under capacity |
| `Admission.HttpAdmission` | proxy/src/http.rs:306-530 | A request on the wire, however spelled and in any packets, is granted a target exactly if it is welcome and its authority spells that target, and charged exactly if it offered a wrong pair under capacity |
| `FrontEnds.Serve` | proxy/src/socks5.rs:406-437 | One attempt: the verdict the limiter's answer calls for, and one legal charge exactly when it is a wrong pair |
| `FrontEnds.ServeAll` | proxy/src/socks5.rs:281-335 | Any sequence of attempts over both front ends: asked and charged exactly as the verdicts say, at most 4096 peers tracked, and at most 5 + T/12 attempts of a peer never forcibly evicted end in a wrong pair |
| `Overlap.OverlappingRateBound` | proxy/src/socks5.rs:281-335 | The same bound with other peers' attempts overlapping in any way; only the peer's own are taken one at a time |
| `Codec.JoinOfSplit` | daemon/src/mgmt/codec.rs:24-51 | Splitting at LF loses and invents nothing |
| `Codec.SplitOfJoin` | daemon/src/mgmt/codec.rs:24-51 | And is the only way to cut a stream into LF-free pieces |
| `Codec.PushChunk` | daemon/src/mgmt/codec.rs:24-51 | The splitting loop is the specification |
| `Codec.ChunkInvariant` | daemon/src/mgmt/codec.rs:24-59 | For any chunking without error, the lines are the split of the whole stream and the buffer its LF-free tail of at most 8192 bytes |
| `Codec.PushAllFailsIff` | daemon/src/mgmt/codec.rs:24-51 | A stream fails exactly when some read ends on a tail over 8192 bytes |
| `LineReads.AlwaysAcceptedIff` | daemon/src/mgmt/codec.rs:24-51 | Over reads of 1 to 4096 bytes, a stream is accepted however it arrives if and only if no line, and not the tail, exceeds 8192 bytes |
| `LineReads.NeverAcceptedIff` | daemon/src/mgmt/codec.rs:24-51 | It is refused however it arrives if and only if some line exceeds 8192 + 4095 bytes or the tail 8192 |
| `LineReads.SameStreamTwoFates` | daemon/src/mgmt/codec.rs:24-51 | Every stream in between has an arrival that is accepted and one that is refused |
| `Codec.EmittedLineBound` | daemon/src/mgmt/codec.rs:24-51 | With 4096-byte reads no line exceeds 8192 + 4096 - 1 bytes |
| `Escape.RoundTrip` | daemon/src/mgmt/escape.rs:5-59 | Every accepted command line lexes back to exactly its verb and parameters, has no framing byte and at most 900 bytes |
| `Escape.AcceptedIff` | daemon/src/mgmt/escape.rs:33-67 | Exactly which commands are accepted: a verb of letters, digits, `-` and `_`, no LF, CR or NUL, at most 900 bytes counting three per parameter and one per escaped byte; and which error each other one gets |
| `Escape.LinesAreUnambiguous` | daemon/src/mgmt/escape.rs:14-48 | No two different commands share a line |
| `Actor.Task.Route` | daemon/src/mgmt/client.rs:341-405 | Routing one line as it runs; a notification is folded into the published state, nothing else touches it, and an actor that ends publishes "down" |
| `Actor.Task.OnRead` | daemon/src/mgmt/client.rs:319-347 | Handling one read as it runs |
| `Actor.Task.FlushOutbox` | daemon/src/mgmt/client.rs:304-318 | Writes in order while nothing is outstanding; a write that fails ends the channel |
| `Actor.Task.Loop` | daemon/src/mgmt/client.rs:286-358 | The actor loop over any script of write outcomes and wake-ups, read errors and end of stream included, is the specification |
| `MgmtSystem.DriveSound` | daemon/src/mgmt/client.rs:304-397 | Against any peer: nothing is accumulated while nothing is outstanding, replies go to reply-bearing commands in order, one each, at most one outstanding, outbox at most 32 |
| `MgmtSystem.DriveIsFifo` | daemon/src/mgmt/client.rs:304-358 | Over any run no accepted command is dropped, reordered or overtaken |
| `MgmtSystem.HoldsAreReleased` | daemon/src/mgmt/client.rs:373-397 | Every hold notification queues one release as far as there is room, and nothing else queues anything |
| `MgmtSystem.MadeOfIsSpelled` | daemon/src/mgmt/codec.rs:75-154 | A reply is read from exactly the lines that spell it: body lines, then the ending of its status and text |
| `MgmtSystem.EndingsReadBack` | daemon/src/mgmt/codec.rs:75-91 | `SUCCESS: `, `ERROR: ` and `END` are read as the endings they are, with their text |
| `MgmtSystem.StepKeepsInv` | daemon/src/mgmt/client.rs:304-397 | Heard, in flight, half said and not yet taken up are together exactly the outstanding command's answer, whatever step is taken |
| `MgmtSystem.EveryCallerGetsItsOwnReply` | daemon/src/mgmt/client.rs:286-405 | Over every run against a peer that answers in order, with notifications and read boundaries anywhere, each delivered reply is the one spelled out to that very command; answered and outstanding are the reply-bearing commands written, in order |
| `MgmtRuns.QuietMeansEveryoneIsAnswered` | daemon/src/mgmt/client.rs:286-405 | Once the peer has said everything and it has been read on a live channel, every reply-bearing command written has been answered, in order, with its own reply |
| `MgmtRuns.LoopIsARun` | daemon/src/mgmt/client.rs:286-358 | Every run of the loop opposite a peer, over any writes and wake-ups, is a run of the system |
| `MgmtRuns.LoopCorrelates` | daemon/src/mgmt/client.rs:286-405 | So the loop itself delivers to every command the reply spelled out to it |
| `TunnelFeed.SubscribersReadTheFold` | daemon/src/mgmt/client.rs:267-347 | After any run of the loop: while it lives, the published state is the fold of the notifications among all bytes read, however cut and whatever else happened; once it has ended, for any reason, "down" with no identity |
| `TunnelFeed.ChannelEndsIff` | daemon/src/mgmt/client.rs:304-358 | A live channel ends for these reasons only: a wanted write failed, the peer closed or a read failed, the callers are gone, an awaited reply did not come, an unterminated tail over 8192 bytes, an up-block without a device |
| `StrayLines.StraysAreIgnoredIff` | daemon/src/mgmt/client.rs:365-397 | Reply lines nobody asked for leave a live actor as it was, if and only if nothing was outstanding when they arrived |
| `StrayLines.LateTailBecomesNextBody` | daemon/src/mgmt/client.rs:365-397 | A stray tail while a command is outstanding becomes the head of that command's reply |
| `StrayLines.StrayEndingBecomesReply` | daemon/src/mgmt/client.rs:365-397 | A stray ending while a command is outstanding becomes its reply, and the command's own answer is then dropped |
| `Tunnel.GetIsFirst` | daemon/src/mgmt/event.rs:347-363 | An environment value is the first entry for its key, and an empty one counts as none |
| `Tunnel.AnnouncesIff` | daemon/src/mgmt/event.rs:347-363 | An up-block announces an identity exactly when each part is what its own key says: dev, dev_type, ifconfig_local, ifconfig_ipv6_local |
| `Tunnel.Watch.Publish` | daemon/src/mgmt/tunnel.rs:44-93 | The cell becomes the advanced state, and waiters wake exactly when it changed |
| `Tunnel.Watch.ObserveAndPublish` | daemon/src/mgmt/tunnel.rs:60-76 | One event folded in and published; a fold error publishes "down" first |
| `Tunnel.CellMirrorsTracker` | daemon/src/mgmt/tunnel.rs:44-136 | After every event the cell is the tracker's connectivity and identity, and its generation counts entries into CONNECTED, saturating |
| `Tunnel.SameGenerationMeansUnbroken` | daemon/src/mgmt/tunnel.rs:33-55 | Equal unsaturated generations up to a connected observation mean connected at every event between |
| `Tunnel.GenerationRevealsFlapsIff` | daemon/src/mgmt/tunnel.rs:33-55 | Up to a connected observation the generation is unchanged if and only if the tunnel was connected throughout or the counter had saturated |
| `Tunnel.Supervise` | daemon/src/session/mod.rs:312-350 | The supervisor's loop over any wake-ups returns the specified verdict |
| `Tunnel.SupervisionVerdict` | daemon/src/session/mod.rs:312-350 | Still running exactly when every wake-up was a feed event or a connected cell of the same generation; otherwise the first that was not decides: cell down, cell up with another generation, or either feed closed |
| `Tunnel.StillRunningMeansUnbroken` | daemon/src/session/mod.rs:312-350 | A supervisor still running means unbroken connectivity from reading its generation to every value it handled |
| `Tunnel.UnbrokenSinceReadyIff` | daemon/src/session/mod.rs:312-350 | With the supervisor still running, the tunnel is unbroken since the session was ready exactly when the generation had not moved before the supervisor read it |
| `Tunnel.EarlyFlapGoesUnseen` | daemon/src/session/mod.rs:312-350 | A concrete run in which it had, the identity changed, and the supervisor keeps running |
| `Tunnel.CollectorTracksOpenBlock` | daemon/src/mgmt/event.rs:316-345 | The collector is inside a block exactly when one is open, holding exactly its entries |
| `Tunnel.IdentityIsFresh` | daemon/src/mgmt/tunnel.rs:105-166 | An identity is reported exactly when it is the one announced by the last completed up-block since the last DOWN and the last departure from CONNECTED |
| `Tunnel.MissingDeviceFailsClosed` | daemon/src/mgmt/event.rs:347-363 | An up-block without a device kills the channel with "down" already published |
| `Tunnel.DeadStaysDown` | daemon/src/mgmt/tunnel.rs:60-82 | And nothing later revives it |
| `Egress.RunKeepsInv` | proxy/src/egress.rs:311-345 | Under every interleaving each call's write is pending or has landed, and the slot is the last landed write's |
| `Egress.AtMostOneCurrent` | proxy/src/egress.rs:158-160 | Short of 2^64 bumps generations are distinct and at most one handle is current |
| `Egress.StaleIsForever` | proxy/src/egress.rs:158-345 | Over any run a handle is current exactly when the counter has gone round a whole number of times since; short of that, stale is for good |
| `Egress.HandedOutIsLive` | proxy/src/egress.rs:347-356 | What is handed out was issued by the last bump, an up |
| `Egress.DownStrandsEverything` | proxy/src/egress.rs:336-356 | After a down bump with no later up, nothing is handed out or usable, however the writes land |
| `Egress.AvailableIff` | proxy/src/egress.rs:311-356 | A handle is handed out exactly when the last bump was an up and its own write landed last |
| `Egress.OrderedWritesHideNothing` | proxy/src/egress.rs:311-356 | If writes land in bump order, up means available once all have landed |
| `Egress.LateWriteHidesLiveTunnel` | proxy/src/egress.rs:311-356 | A concrete interleaving with a live, unreachable handle |
| `SessionCell.DisconnectStopsTheCommit` | daemon/src/session/state.rs:44-188 | From any state no attempt owns, no sequence of operations that claims nothing anew lets a commit through |
| `SessionCell.StateCell.Do` | daemon/src/session/state.rs:49-188 | Each operation of the cell accepts what is permitted; short of force, it leaves a state exactly by the exits listed for it and otherwise stays |
| `SessionMoves.StaysUntilExit` | daemon/src/session/state.rs:49-188 | A run leaves a state at the first operation among its exits, to where that aims; `Disconnecting` only for `Disconnected` or `Failed` |
| `SessionMoves.ClaimedIff` | daemon/src/session/state.rs:49-188 | An attempt owns the slot exactly when the slot was claimed while free and nothing disturbed the attempt since |
| `SessionMoves.ReachesConnectedIff` | daemon/src/session/state.rs:49-188 | And is `Connected` exactly when `Connected` was announced after that claim |
| `ConnectRun.ComesUpIff` | daemon/src/session/mod.rs:210-240 | An attempt comes up exactly when nothing outside fails, the manager's install succeeds and both moves of the session state are accepted; it is then bound, published and Connected, and otherwise neither bound nor published |
| `FirstConnect.UndisturbedComesUpIff` | daemon/src/session/mod.rs:210-240 | An attempt nobody disturbs comes up, `Connected`, exactly when nothing outside fails, the manager's install succeeds and nobody announced `Connected` first |
| `FirstConnect.FirstConnectIff` | daemon/src/session/mod.rs:210-240 | The first connect on a clean machine comes up exactly when nothing outside fails, every flush could be started, whatever it exited with, and every step's command acted, exited zero and could be read back |
| `ConnectRun.EveryHistory` | daemon/src/session/mod.rs:210-240 | The six histories an attempt can have, and no other |
| `ConnectRun.TraceIsTruthful` | daemon/src/session/connect.rs:94-333 | Every install in the trace is a run of the manager's install, every teardown one of the plan teardown, on the world the entry before left and reporting its own outcome; nothing else touches the machine |
| `ConnectRun.AttemptIsOrderly` | daemon/src/session/connect.rs:94-333 | Publish only after install, revoke before teardown; at every point each install but at most the last has had its one teardown, and the last too unless the attempt came up |
| `ConnectRun.AttemptLeavesMachineAsFound` | daemon/src/session/connect.rs:92-109 | From a clean machine protected after every command and clean again; an unstained machine is left exactly as found, unless it came up or a rollback or teardown failed |
| `ConnectRun.DisconnectStopsTheAttempt` | daemon/src/session/mod.rs:262-281 | A disconnect that had the last word before the commit stops it |
| `Session.Attempt.Install` | daemon/src/policy/mod.rs:187-195 | Best-effort flush, then the verified plan, as it runs |
| `Session.Attempt.InstallPolicy` | daemon/src/session/connect.rs:167-209 | Install, keep the binding, publish: the specification |
| `Session.Attempt.Teardown` | daemon/src/session/connect.rs:289-301 | Revoke, then the plan teardown if there is a binding: the specification |
| `Session.Attempt.Establish` | daemon/src/session/connect.rs:92-165 | Up to a published tunnel, or torn down: the specification |
| `Session.Attempt.Connect` | daemon/src/session/mod.rs:210-240 | The attempt to its commit, as it runs, is the specification |
| `Session.Attempt.RunConnect` | daemon/src/session/mod.rs:210-240 | So all of the above holds of it: when it comes up, a truthful and orderly trace, the machine as found, and a disconnect that wins |
| `ConnectRun.AccountInstall` | daemon/src/session/connect.rs:167-209 | What the install, failed or not, does to the machine the attempt found |
| `ConnectRun.AccountTeardown` | daemon/src/session/connect.rs:289-301 | What the teardown does to it |
| `Walkers.Align` | daemon/src/policy/netlink.rs:45-47 | The next multiple of four, less than four away |
| `Walkers.NetlinkMentionsDeletion` | daemon/src/policy/netlink.rs:54-82 | The offset loop stays inside every buffer, ends, and answers as the walk of the rest of the buffer does |
| `Walkers.NetlinkExact` | daemon/src/policy/netlink.rs:49-82 | Over any well-formed padded messages and anything after them: a deletion is reported exactly when some message has type 33, 25 or 21, or the rest on its own mentions one |
| `Walkers.NetlinkLastUnpadded` | daemon/src/policy/netlink.rs:54-82 | A last message without its padding is seen all the same |
| `Walkers.RouteMentionsDeletion` | daemon/src/policy/route_socket.rs:66-91 | The routing-socket loop likewise |
| `Walkers.RouteExact` | daemon/src/policy/route_socket.rs:54-91 | Its messages are exact in length and of version 5; a deletion is reported exactly when one has type 2 or 13 |

## Left out

- Text: how `ip` output is matched, openvpn event and state lines, IP literals, base64, UTF-8 decoding. Probes
  answer from the kernel model; parsers are parameters.
- Time: timeouts, the teardown budget and the management channel's reply timeout. Nothing is claimed about
  `drive` stopping under continuous input.
- The management handshake, and the credential and challenge exchange.
- The macOS policy backend, whose plan has one step per family: the lemmas over any ordered plan cover it.
- IPv6 same-metric routes, which Linux may keep side by side: a taken metric refuses the add in both families.
- Interference while an install or teardown runs. Deletions by others happen between passes, and foreign rules
  are assumed not to take the tun address ahead of the backstop or to use table 218 or priority 18500.
- Session interleavings past one attempt: a late `force` by a supervisor, and a disconnect that lands between
  the commit and the store into `active`.
- One peer's own attempts that overlap: `Limiter.FailureRateBound` and everything built on it take them one at a time.
- Floating point: tokens and times are exact reals.
- Egress address checks, ifindex resolution and socket pinning. The shared counter and slot are values in a step
  relation, not fields of a class, because the property is about interleaving.
- Escape.RoundTrip: the lexer has double quotes, backslashes, comments and whitespace, not single quotes or
  openvpn's limit on the number of parameters.
