# mud-web-proxy, modelled and proved

mud-web-proxy lets WebSocket clients play on telnet MUDs.  It holds a telnet connection
per session, keeps output for clients that come back, bounds what one address and one
connection may do, and decides which peers to trust and which targets to dial.  This
project models the stateful cores behind that and proves what they keep over whole runs.
`dafny verify dfyconfig.toml` checks all of it.

Objects that update their fields are classes; every method of theirs is proved against a
function on values, and the theorems are about those functions over arbitrary runs.

| files | what they model |
|---|---|
| `TelnetProtocol`, `TelnetParser`, `TelnetTheorems`, `TelnetCodec`, `TelnetReplies`, `TelnetAnswers` | the telnet byte machine: its seven states, its capped accumulator, its ordered text and echo segments, how much it replies and what |
| `CapacityLedger`, `CapacityProtocol`, `CapacityTheorems`, `CapacityOwnership`, `CapacityAdmission`, `CapacityEffects`, `SessionManager` | reservations and established counts across many asynchronous dials of both wire protocols, each synchronous stretch one step |
| `DialPhases`, `DialOutcomes`, `MudDial` | the upstream dial: TLS, plaintext fallback, two timers, abort and hand-off through shared flags |
| `ReplayList`, `CircularBuffer`, `Delivery`, `SessionOutput`, `SessionTheorems` | the replay ring, and what a client receives over output, lost connections and resumes |
| `WindowStore`, `RateLimiters`, `LimiterTheorems`, `LimiterEviction`, `MessageRate`, `ThrottleNotices` | the sliding-window limiters and their two-dimensional composition |
| `TriggerLimits` | the notification limit and its cleanup pass |
| `AddressText`, `AddressAgreement`, `AddressSpelling`, `AddressCompleteness`, `AddressPrinting`, `PrefixArithmetic`, `AddressPolicy`, `ReservedTargets`, `TrustEntries`, `ClientAddress` | both IPv6 parsers, masked prefixes, trusted peers, reserved targets, the client's address |
| `DerSearch`, `DerTermination`, `NonceStore` | the nonce search in certificate bytes and the attestation nonces |
| `ShutdownRace` | the shutdown sequence against its deadline |

Where the code does not do what its documentation says, the model follows the code:

- `perTypePerMinute` is configured but never read; a trigger is held to one notification a
  minute whatever it says (`src/trigger-matcher.ts:190-197`).
- The rate-limit store is documented as capped; with a limit of zero the refusing branch
  stores every source (`LimiterTheorems.BoundedExactlyWhenLimited`).  The shipped limits
  are never zero: two are constants (`wsproxy.ts:282`, `wsproxy.ts:287`) and the others are
  read as positive numbers (`src/runtime-config.ts:932-936`).
- Evicting a source forgets what it did: the request limit and the failure limit hold over
  all its requests and failures exactly while the sources in use fit the store
  (`LimiterEviction.SpacedExactlyWhileTheyFit`, `LimiterEviction.BlocksExactlyWhileTheyFit`).
- A throttled client is documented as told at most once per window; that holds exactly
  while fewer than 10,000 keys are about (`ThrottleNotices.OncePerWindowExactlyBelowCap`).
- With an hourly limit of zero a session still gets its first notification, and another
  after each cleanup (`TriggerLimits.UnobservableExactly`).  The shipped limit is 10
  (`wsproxy.ts:195`).
- `src/target-policy.ts` accepts `::` beside eight explicit groups, which section 2.2 of
  RFC 4291 does not allow (`AddressAgreement.ParsersAgree`).
- A DER length of four octets with the top bit set reads as negative, and the search may
  then not end (`DerTermination.LoopNeverEnds`); it ends exactly when no frame is entered
  again from itself (`DerTermination.EndsExactly`).
- WILL of SGA and of NAWS is answered with WONT, where the section "General Considerations"
  of RFC 854 has DO or DONT (`TelnetAnswers.OtherOffersAnswered`,
  `TelnetAnswers.WindowSizeAnswered`).
- A second legacy connect on one socket counts it again and only one count is ever given
  back (`CapacityOwnership.SecondConnectOrphans`).
- A counted legacy socket that a typed connect has attached to a session keeps its count
  when it closes (`CapacityOwnership.AttachedSocketStaysCounted`).

What the model takes as given: a clock that is read once per call and does not go back
(positive where zero would read as "never"); strings of ASCII characters; bytes as numbers
below 256; fresh random nonces; sources, sessions and triggers named by numbers, since
only their equality matters.

## Model

| member | source | states |
|---|---|---|
| `TelnetTheorems.ChunkingInvisible` | src/telnet-parser.ts:139-264 | However a stream is cut into calls, the final state, text, GMCP list and writes are those of one call, and so are the segments once neighbouring text is joined |
| `TelnetCodec.DecodeInvertsEncode` | src/telnet-parser.ts:139-291 | One call on the encoding of any list of items ends in text mode and yields exactly their text, their echo switches in place, and one message per GMCP payload of at most the cap; a longer payload leaves nothing |
| `TelnetCodec.DecodeInvertsEncodeInChunks` | src/telnet-parser.ts:139-291 | The same for every way of cutting the encoding into calls |
| `TelnetCodec.RunSubnegotiation` | src/telnet-parser.ts:194-242 | A whole escaped subnegotiation leaves the machine in text mode having done what its payload means, or nothing when it is over the cap |
| `TelnetCodec.RunPayload` | src/telnet-parser.ts:278-291 | An escaped payload is stored whole when it fits the cap and otherwise discarded whole |
| `TelnetTheorems.EchoAlternatesOverRun` | src/telnet-parser.ts:315-336 | Over a whole run of calls the echo segments alternate, starting opposite to the initial mode, and the text segments concatenate to the text |
| `TelnetTheorems.BufferUnderCap` | src/telnet-parser.ts:278-291 | The subnegotiation buffer never exceeds its cap over any run |
| `TelnetTheorems.CallMeaning` | src/telnet-parser.ts:248-263 | The segments of a call are in normal form and are its ordered output; text, messages and writes are those of the byte effects |
| `TelnetTheorems.NormalFormUnique` | src/telnet-parser.ts:315-336 | Two normal segment lists with the same ordered output are the same list |
| `TelnetReplies.RepliesBounded` | src/telnet-parser.ts:341-570 | A fresh parser writes at most four bytes per byte received plus 123, whatever arrives and however it is cut |
| `TelnetReplies.FactorReached` | src/telnet-parser.ts:341-570 | The factor four is reached: a MUD that keeps asking for NEW-ENV gets 24 bytes for every six |
| `TelnetReplies.StepWithinBudget` | src/telnet-parser.ts:341-570 | Each byte pays for the replies it causes out of a potential over partly received sequences |
| `TelnetReplies.AnsweredAtMostOnce` | src/telnet-parser.ts:341-455 | Over any run at most one negotiation each of GMCP, TTYPE, MSDP, MXP, NEW-ENV, SGA and NAWS is answered, none if it was seen before |
| `TelnetAnswers.AgreesOnlyToSupported` | src/telnet-parser.ts:341-570 | Over any run every write is a whole subnegotiation or a negotiation whose WILL is of GMCP, TTYPE, NEW-ENV or CHARSET and whose DO is of GMCP or MSDP; the rest are WONT and DONT |
| `TelnetAnswers.WritesMatch` | src/telnet-parser.ts:341-455 | An answer names the option offered: DO is answered with WILL or WONT, WILL with DO or DONT, except that SGA and NAWS are answered with WONT; a subnegotiation can only bring up WILL TTYPE |
| `TelnetAnswers.UnknownOffersRefused` | src/telnet-parser.ts:381-450 | After any bytes, every DO and WILL of an option without a handler and the first one of MXP is refused with WONT or DONT; ECHO and MCCP2 are never answered |
| `TelnetAnswers.GmcpMirrored` | src/telnet-parser.ts:347-360 | After any bytes, the first offer of GMCP is answered WILL to DO and DO to WILL, followed by the two client messages, and a later one not at all |
| `TelnetAnswers.MsdpAnswered` | src/telnet-parser.ts:370-379 | The first WILL MSDP is answered DO and the four client variables, and nothing else is |
| `TelnetAnswers.OtherOffersAnswered` | src/telnet-parser.ts:393-419 | The first DO NEW-ENV is answered WILL, the first WILL SGA is answered WONT, and nothing else of the two is |
| `TelnetAnswers.WindowSizeAnswered` | src/telnet-parser.ts:421-430 | The first DO NAWS is answered with width and height, most significant byte first; a first WILL with WONT |
| `TelnetAnswers.CharsetOffered` | src/telnet-parser.ts:432-437 | DO CHARSET is answered WILL until a charset request has been accepted |
| `TelnetAnswers.TtypeAnswered` | src/telnet-parser.ts:362-368 | The first DO TTYPE is answered WILL TTYPE and a terminal name |
| `TelnetAnswers.NamesInOrder` | src/telnet-parser.ts:533-548 | Over any run the terminal names given are MUDBasher, XTERM-256color, MTTS 141 and then MUDBasher for ever |
| `TelnetAnswers.SubnegotiationsAnswered` | src/telnet-parser.ts:457-510 | A whole CHARSET subnegotiation is answered with UTF-8 accepted once per parser, a NEW-ENV request with the placeholder address, a TTYPE request with a name, and every other one with nothing |
| `TelnetAnswers.SeenIsHistory` | src/telnet-parser.ts:341-455 | A flag is set exactly when an offer that uses it up has been completed before |
| `TelnetAnswers.StrippedAfterIac` | src/telnet-parser.ts:159-179 | After IAC in text mode a doubled IAC is one text byte, every byte below 250 is stripped and leaves the parser as it was, and the rest open a sequence |
| `TelnetAnswers.BrokenSubnegotiation` | src/telnet-parser.ts:207-242 | A subnegotiation broken off by IAC and a byte other than SE ends in text mode with no effect, unless it was over the cap, when discarding goes on |
| `TelnetAnswers.GmcpSplitsAtFirstSpace` | src/telnet-parser.ts:515-528 | Package, space and data join to the payload and the package holds no space; without one the package is the payload |
| `TelnetParsing.TelnetParser.Process` | src/telnet-parser.ts:139-264 | The object that updates its fields byte by byte returns the result, next state and writes of the specification |
| `TelnetParsing.TelnetParser.ProcessByte` | src/telnet-parser.ts:150-243 | One byte through the seven states does exactly one step of the specification |
| `TelnetParsing.TelnetParser.AppendSubnegByte` | src/telnet-parser.ts:278-291 | The byte is stored when there is room; otherwise the buffer is dropped and discarding starts |
| `TelnetParsing.TelnetParser.SetPasswordMode` | src/telnet-parser.ts:331-336 | A change of mode closes the open text and records one echo segment; no change records nothing |
| `TelnetParsing.TelnetParser.HandleNegotiation` | src/telnet-parser.ts:341-455 | Flags, TTYPE queue, password mode and replies after IAC cmd option are those of the specification, whose replies TelnetAnswers states byte by byte |
| `TelnetParsing.TelnetParser.HandleSubnegotiation` | src/telnet-parser.ts:457-510 | What a complete subnegotiation changes, hands back and writes |
| `TelnetParsing.TelnetParser.HandleGmcpSubneg` | src/telnet-parser.ts:515-528 | The package is what stands before the first space, the data what follows it |
| `TelnetParsing.TelnetParser.SendNextTtype` | src/telnet-parser.ts:533-548 | Takes the next terminal name off the queue, and MUDBasher once it is empty, and sends it after WILL TTYPE |
| `CapacityTheorems.CapacityBounded` | src/session-manager.ts:305-406 | Over every interleaving of typed and legacy dials, failures, aborts, closes and removals, established + pending of an address and of the server stay within their limits, the running totals are the sums of their maps, pending equals the dials in flight, and an attached client maps back to its session |
| `CapacityTheorems.EstablishedIsOwned` | wsproxy.ts:2509-2575 | The established count of an address is its owners plus the recounts of the run, so it is owned exactly when no socket was counted again before giving its count back |
| `CapacityTheorems.RunKeeps` | src/session-integration.ts:406-656 | The invariant holds along every run |
| `CapacityTheorems.StepKeeps` | src/session-integration.ts:406-656 | One synchronous stretch keeps the invariant and moves established capacity together with its owner |
| `CapacityAdmission.DialsComeFromConnects` | src/session-integration.ts:406-512 | Over every run each dial in flight came from its own connect on its socket and for its address, and stands where the events since put it: admitted only with an allowed target and room, and an arbitrary target first resolved as its phase says |
| `CapacityAdmission.DialledOnlyIfPermitted` | src/session-integration.ts:456-512 | Over every run a dial that is granted, dialling or waiting for its transport was asked for with an allowed target while there was room, and an arbitrary target was permitted by a resolution before any that denied it |
| `CapacityEffects.DenialIsFinal` | src/session-integration.ts:456-504 | Over every run, a denial that meets a waiting dial removes a typed one, leaves a legacy one denied, and takes one reservation off its address and no other |
| `CapacityEffects.ResolutionDecides` | src/session-integration.ts:456-504 | Permitted, a waiting dial keeps its reservation and goes on; denied, it gives it back; any other dial is left alone |
| `CapacityEffects.TypedAdmittedExactly` | src/session-integration.ts:406-545 | A typed connect is admitted exactly when its socket has no session, its target is allowed, and established plus pending are below both limits; it then holds one reservation |
| `CapacityEffects.LegacyAdmittedExactly` | wsproxy.ts:2509-2534 | A legacy connect is ignored exactly when its socket is busy, and holds a reservation exactly when its target is allowed and there is room |
| `CapacityEffects.GrantedDialStarts` | src/session-integration.ts:547-619 | A dial granted after its await gets a new session whose one client is its socket, and the session the socket was in loses it |
| `CapacityEffects.SuccessCounts` | src/session-integration.ts:620-642 | A dial that succeeds turns its reservation into one established unit of its session, or gives it up when the address is unknown |
| `CapacityEffects.FailureReleases` | src/session-integration.ts:643-656 | A dial that fails is gone with its session and the mappings of its clients, and gives its reservation back |
| `CapacityEffects.FailedDialLeavesNoTrace` | src/session-integration.ts:514-656 | A typed connect whose dial fails leaves every count, the sessions, the socket map and the dials as they were |
| `CapacityEffects.ContinuationSettles` | wsproxy.ts:2535-2574 | A denied legacy dial goes with its controller, an aborted one gives its reservation back, and any other turns it into one unit counted on its socket |
| `CapacityEffects.TransportSettles` | wsproxy.ts:2613-2714 | A transport that connects makes its socket an upstream, one that fails does not, and an aborted dial can only fail |
| `CapacityEffects.ClosedLegacyLeavesNoTrace` | wsproxy.ts:2509-2743 | A legacy connection opened, connected and closed leaves the state as it was, every count included, but for the next dial number |
| `CapacityEffects.LegacySocketCloses` | wsproxy.ts:2731-2743 | A socket closing outside a session gives its counted unit back and aborts a dial still on its way |
| `CapacityEffects.SessionLeaves` | src/session-manager.ts:214-244 | A session that leaves gives its counted address one unit back, by removal and by disconnect alike; only removal unmaps its clients |
| `CapacityEffects.ReapableExactlyAfterGrace` | src/session-manager.ts:343-359 | After its last client closes, a session may be reaped exactly when more than the grace window has passed since that moment; while it has a client, never |
| `CapacityEffects.ResumedIsNotReaped` | src/session.ts:226-232 | A resumed session has the socket as a client and no clientless stamp |
| `CapacityOwnership.OneConnectPerSocketIsOwned` | wsproxy.ts:2509-2575 | With at most one legacy connect per socket, established capacity equals stored sessions plus counted legacy sockets |
| `CapacityOwnership.SecondConnectOrphans` | wsproxy.ts:2480-2493 | A second connect after a failed dial, before the delayed close, leaves one unit counted that nothing owns |
| `CapacityOwnership.ClosingGivesBackExactlyUnattached` | wsproxy.ts:2717-2743 | After any run a closing legacy socket gives its count back exactly when it is not attached to a session |
| `CapacityOwnership.AttachedSocketStaysCounted` | wsproxy.ts:2719-2729 | A typed connect on a socket whose legacy connection is counted attaches it, and its close then leaves the unit counted for a socket that is gone |
| `SessionManagement.SessionManager.ReservePendingDial` | src/session-manager.ts:305-328 | Refuses at either limit, established and pending together, the address before the server, and otherwise reserves one unit |
| `SessionManagement.SessionManager.ReleasePendingDial` | src/session-manager.ts:371-382 | Gives one reservation back, never below zero |
| `SessionManagement.SessionManager.IncrementIPCount` | src/session-manager.ts:389-393 | Counts one established unit for the address and the server |
| `SessionManagement.SessionManager.DecrementIPCount` | src/session-manager.ts:398-406 | Gives one established unit back, if there is one |
| `SessionManagement.SessionManager.AttachWebSocket` | src/session-manager.ts:183-198 | Moves the socket to the session, leaving any other; fails when the session is not stored |
| `SessionManagement.SessionManager.DetachWebSocket` | src/session-manager.ts:203-209 | Takes the socket from its session and forgets the mapping |
| `SessionManagement.SessionManager.RemoveSession` | src/session-manager.ts:214-244 | Removes the session, its socket mappings and its established unit |
| `SessionManagement.SessionManager.ReapClientlessSessions` | src/session-manager.ts:343-359 | Removes exactly the sessions without a client for longer than the grace window, each once |
| `SessionManagement.ReapIsARun` | src/session-manager.ts:343-359 | A reaping pass is a run of single removals, so the capacity theorems cover it |
| `SessionManagement.ReapKeepsTheRest` | src/session-manager.ts:343-359 | After a reap exactly the sessions with a client, or clientless for no longer than the grace window, are stored, unchanged |
| `SessionManagement.SessionIntegration.OpenTelnetSession` | src/session-integration.ts:514-545 | The typed connect up to its first await is one step of the protocol |
| `SessionManagement.SessionIntegration.TargetResolved` | src/session-integration.ts:456-504 | The stretch after name resolution is the protocol step CapacityEffects.ResolutionDecides describes: a permitted dial goes on, a denied one gives its reservation back |
| `SessionManagement.SessionIntegration.DialSession` | src/session-integration.ts:547-619 | Creates the session, attaches the socket and starts the upstream connect |
| `SessionManagement.SessionIntegration.ConnectResolved` | src/session-integration.ts:620-642 | Hands the reservation over to an established count, or gives it back when the session is gone |
| `SessionManagement.SessionIntegration.ConnectRejected` | src/session-integration.ts:643-656 | Gives the reservation back and removes the session |
| `SessionManagement.SessionIntegration.HandleResume` | src/session-integration.ts:661-697 | Refuses a resume without the session's token, removes a session that timed out, and otherwise attaches the socket to it |
| `SessionManagement.SessionIntegration.HandleDisconnect` | src/session-integration.ts:794-824 | Removes the session the socket is attached to |
| `SessionManagement.SessionIntegration.OpenLegacyConnection` | wsproxy.ts:2509-2534 | The legacy connect up to its await is one step of the protocol |
| `SessionManagement.SessionIntegration.ContinueLegacyConnection` | wsproxy.ts:2535-2574 | After authorization: refused, aborted, or counted and handed over in one stretch |
| `SessionManagement.SessionIntegration.OnTransportConnected` | wsproxy.ts:2613-2621 | The legacy socket gets its upstream connection and drops its abort controller |
| `SessionManagement.SessionIntegration.OnTransportFailed` | wsproxy.ts:2695-2714 | A failed legacy dial clears its controller unless it was aborted |
| `SessionManagement.SessionIntegration.CloseSocket` | wsproxy.ts:2717-2743 | A closing socket detaches from its session, or gives its legacy count back and aborts its dial |
| `DialPhases.EveryOrderSettlesByPolicy` | src/mud-transport.ts:131-357 | On every event order TLS and plaintext are handed off only where the mode allows, downgraded holds exactly for plaintext under prefer, and the first settlement is the last |
| `DialOutcomes.HandedOffExactly` | src/mud-transport.ts:131-357 | A run ends with a TLS connection exactly when at some event the handshake completed in a TLS phase and the receiver returned, and with a plaintext one exactly when the plain socket connected in the plain phase and it returned |
| `DialOutcomes.TlsHandedOffExactly` | src/mud-transport.ts:181-188 | One event hands TLS over exactly when it is the end of the handshake in a TLS phase and the receiver returns |
| `DialOutcomes.PlainHandedOffExactly` | src/mud-transport.ts:144-152 | One event hands plaintext over exactly when it is its connect in the plain phase and the receiver returns; it is a downgrade exactly under prefer |
| `DialOutcomes.DowngradedExactly` | src/mud-transport.ts:313-328 | Plaintext is dialled after TLS exactly under prefer, on a close, a handshake deadline or a negotiation failure, when the callback returns and the plain socket opens |
| `DialOutcomes.RejectedExactly` | src/mud-transport.ts:191-328 | A dial is rejected exactly on abort, a dial timer, a plaintext failure, a TLS error that is no negotiation failure, a TLS failure that is not answered in plaintext, or a receiver that throws |
| `DialOutcomes.StartsExactly` | src/mud-transport.ts:330-357 | A dial starts over TLS, in plaintext or not at all, by mode, abort and what could be opened |
| `DialOutcomes.UndisturbedDialSucceeds` | src/mud-transport.ts:131-357 | When nothing goes wrong each mode ends with its connection handed off |
| `DialPhases.SettlesInTime` | src/mud-transport.ts:159-182 | While unsettled the armed deadline lies within dialTimeoutMs, dialTimeoutMs + 4000, or twice dialTimeoutMs + 4000 of the start, by mode |
| `DialPhases.TimersMakeProgress` | src/mud-transport.ts:241-262 | No event goes back a phase and the armed timer goes forward, so a silent peer cannot keep a dial open |
| `DialPhases.BoundIsReached` | src/mud-transport.ts:313-328 | The prefer bound is reached by a peer that answers nothing |
| `MudDialing.Drive` | src/mud-transport.ts:131-357 | The connector with its flags, sockets, listeners and timers ends every event sequence in the phase the five-phase machine gives, and once settled leaves no timer or listener and no open socket but the one handed off |
| `MudDialing.MudDial.constructor` | src/mud-transport.ts:330-356 | Starting the dial opens TLS or plaintext by mode, or settles at once on an aborted signal |
| `MudDialing.MudDial.Handle` | src/mud-transport.ts:144-328 | Each event handler is one step of the phase machine and keeps exactly one timer armed while unsettled |
| `MudDialing.MudDial.HandOver` | src/mud-transport.ts:263-278 | Hand-off settles, clears timers and listeners, and destroys the socket when the callback throws |
| `MudDialing.MudDial.Fail` | src/mud-transport.ts:279-288 | Failure settles once, clears everything and destroys the provisional socket |
| `MudDialing.MudDial.FallBackToPlain` | src/mud-transport.ts:313-328 | The TLS socket is destroyed and plaintext is opened once, unless the callback throws or aborts |
| `MudDialing.MudDial.OnTlsError` | src/mud-transport.ts:191-208 | A TLS error falls back only under prefer and only for a negotiation failure |
| `MudDialing.MudDial.OnAbort` | src/mud-transport.ts:289-298 | Abort settles an unsettled dial and changes nothing afterwards |
| `ReplayList.HistoryIsLongestSuffix` | src/circular-buffer.ts:45-101 | After any run of appends the history is the longest suffix of the chunks not refused as too large that fits both size and slots |
| `ReplayList.TrimIsLongest` | src/circular-buffer.ts:71-92 | Eviction leaves a suffix that fits, and no longer suffix does |
| `ReplayList.RoomForIsTrim` | src/circular-buffer.ts:71-98 | Evicting by size, then by slots, and storing is trimming once |
| `ReplayList.NewerAfterHit` | src/circular-buffer.ts:127-134 | Through the index, the chunks newer than a sequence start right after its chunk |
| `ReplayList.NewerAfterScan` | src/circular-buffer.ts:136-150 | Through the scan, they start at the first larger sequence |
| `CircularBuffers.CircularBuffer.Append` | src/circular-buffer.ts:45-101 | The ring with its slots, sizes and index, updated in place, holds what the list holds after a bounded append |
| `CircularBuffers.CircularBuffer.ReplayAfter` | src/circular-buffer.ts:120-161 | Returns exactly the stored chunks with a larger sequence, on the index path and on the scan path |
| `CircularBuffers.CircularBuffer.Clear` | src/circular-buffer.ts:216-223 | Empties the ring and its index but keeps counting sequences |
| `CircularBuffers.StoreRepresents` | src/circular-buffer.ts:94-98 | Storing at the tail keeps slots, count, exact byte sum and sequence index in agreement with the list |
| `CircularBuffers.EvictionRepresents` | src/circular-buffer.ts:71-92 | Evicting at the head keeps them in agreement, and the index loses exactly the evicted sequence |
| `Delivery.DeliveredOnceInOrder` | src/session-integration.ts:697-744 | Over any run of output, lost connections and resumes from the highest sequence received, sequences arrive strictly increasing, and each is received, still unheard, or lost: produced while cut off and no longer held, because it alone is too large or what was accepted from it onward no longer fits; a replay may break off after any chunk |
| `Delivery.NotHeldMeansRefusedOrEvicted` | src/circular-buffer.ts:60-92 | A chunk is no longer held only if it alone is too large or what was accepted from it onward no longer fits |
| `SessionOutput.Session.ProcessMudData` | src/session-integration.ts:829-924 | One read is parsed, buffered and broadcast: the buffer holds the numbered chunks and every reachable client gets each once, in order |
| `SessionOutput.Session.BroadcastToClients` | src/session.ts:264-294 | Every open client gets the message once; one whose send throws is dropped |
| `SessionOutput.Session.HandleResume` | src/session-integration.ts:697-744 | The client is attached, then sent the confirmation and everything held after its last sequence, up to the first send that throws |
| `SessionOutput.Session.AttachClient` | src/session.ts:226-232 | Adds the client and clears the clientless stamp |
| `SessionOutput.Session.DetachClient` | src/session.ts:238-245 | Removes the client and stamps the moment the last one goes |
| `SessionTheorems.BatchFillsHistory` | src/session.ts:318-327 | A batch of output moves the replay buffer as the delivery model says |
| `SessionTheorems.BatchReachesClient` | src/session-integration.ts:868-924 | A batch of output moves what each client has heard as the delivery model says |
| `SessionTheorems.ResumeFollowsDelivery` | src/session-integration.ts:712-744 | So does a resume |
| `SessionTheorems.BrokenResumeFollowsDelivery` | src/session-integration.ts:712-744 | So does a resume that breaks off after any of its messages |
| `SessionTheorems.MissedThenReplayed` | src/session-integration.ts:697-744 | Over every run, output produced while a client is cut off does not reach it, and its resume brings exactly what of that is still held |
| `SessionTheorems.GmcpGoesFirst` | src/session-integration.ts:829-924 | The GMCP messages of a read are sent first, in their order, then its text and echo switches, and no empty text is sent |
| `SessionTheorems.ReadsCannotBeSeen` | src/session-integration.ts:829-924 | Two ways of cutting one stream into reads put the same text and echo switches on a client's screen and the same messages on its GMCP channel |
| `LimiterTheorems.AllowedIffFewAccepted` | src/wsproxy-utils.ts:487-507 | A request is allowed exactly when fewer than the limit of its source's accepted requests, in a full log kept since the source was last evicted, lie in the window that ends now |
| `LimiterTheorems.AcceptedAreSpaced` | src/wsproxy-utils.ts:487-507 | The requests of a source accepted since it was last evicted lie so that no window ever holds more than the limit |
| `LimiterEviction.SpacedExactlyWhileTheyFit` | src/wsproxy-utils.ts:491-503 | Over a log that is never reset, no window holds more accepted requests of any of n sources than the limit, on every run, exactly when n is at most the tracked sources (at least one), or the limit or the window is zero |
| `LimiterEviction.BlocksExactlyWhileTheyFit` | src/wsproxy-utils.ts:422-442 | n sources are blocked exactly on all their failures since their last success, on every run, under the same condition and no other |
| `LimiterTheorems.BoundedExactlyWhenLimited` | src/wsproxy-utils.ts:491-503 | The store stays within its cap on every run exactly when the limit is not zero |
| `LimiterTheorems.ZeroLimitKeepsEverySource` | src/wsproxy-utils.ts:491-497 | With a limit of zero the refusing branch stores every source it ever sees |
| `LimiterTheorems.BlockedIffManyFailures` | src/wsproxy-utils.ts:414-442 | A source is blocked exactly when at least the limit of its failures since its last success, or its last eviction, lie in the window that ends now |
| `LimiterTheorems.AttemptsBounded` | src/wsproxy-utils.ts:422-434 | The failure store stays within its cap on every run |
| `RateLimiters.SlidingWindowLimiter.TryConsume` | src/wsproxy-utils.ts:487-507 | Trims, refuses without recording, or evicts the oldest source and records |
| `RateLimiters.FailedAuthLimiter.RecordFailure` | src/wsproxy-utils.ts:422-434 | Evicts the oldest source when full, trims, and records the failure |
| `LimiterTheorems.SuccessUnblocks` | src/wsproxy-utils.ts:436-442 | After a success the source is blocked only if the limit is zero, and no other source is answered differently |
| `RateLimiters.FailedAuthLimiter.IsBlocked` | src/wsproxy-utils.ts:440-442 | Answers on the trimmed list and stores it |
| `MessageRate.AddressNeverRefuses` | src/message-rate-limit.ts:114-142 | If the allowances of all connections that use an address together fit its own, and no more connections are about than slots, the address dimension refuses none of their frames whatever anyone sends |
| `MessageRate.DecidedByCounts` | src/message-rate-limit.ts:114-142 | After any run a frame is refused on its connection exactly when that was let through its allowance within the last second, and on its address exactly when only that was, in logs kept since the last eviction |
| `MessageRate.LogsOnlyWatch` | src/message-rate-limit.ts:114-142 | The full logs beside the two stores change nothing of the run |
| `MessageRate.MessageRateLimiter.CheckFrame` | src/message-rate-limit.ts:114-142 | The connection is asked first; a frame it refuses leaves the address window unchanged; the key told is that of the dimension that refused, once within a second, and an allowed frame tells nobody |
| `MessageRate.MessageRateLimiter.ShouldNotify` | src/message-rate-limit.ts:153-166 | Notifies unless the key was told within the window, forgetting the oldest key when full |
| `ThrottleNotices.OncePerWindowExactlyBelowCap` | src/message-rate-limit.ts:153-166 | n keys can never be told twice within one window exactly when n is below 10,000 |
| `ThrottleNotices.ToldOncePerWindow` | src/message-rate-limit.ts:153-166 | While fewer keys are about than notices are kept, no key is told twice within one window |
| `ThrottleNotices.FailingRun` | src/message-rate-limit.ts:158-165 | A run over 10,000 keys in which one is told twice within a millisecond |
| `TriggerLimits.CleanupUnobservable` | src/trigger-matcher.ts:164-275 | Cleaning up anywhere in a run changes no later answer, for an hourly limit of at least one and entries kept long enough: an hour for a limit of one, a minute less a millisecond longer for more |
| `TriggerLimits.DefaultAgeUnobservable` | src/trigger-matcher.ts:259-275 | With the default age of four hours cleanup is unobservable exactly when the limit is not zero |
| `TriggerLimits.UnobservableExactly` | src/trigger-matcher.ts:259-275 | Cleanup is unobservable exactly when the limit is not zero and the age is at least one hour, for a limit of one, or one hour and one minute less a millisecond, for more |
| `TriggerLimits.NotificationsBounded` | src/trigger-matcher.ts:164-203 | With a limit of at least one, cleanups anywhere that keep entries long enough to go unseen, and no removal of the session, any sliding hour holds at most twice the limit of its notifications, and one trigger's are at least 60 s apart |
| `TriggerLimits.TriggerMatcher.CheckRateLimit` | src/trigger-matcher.ts:164-203 | First notification, hourly roll-over, hourly limit, per-trigger minute, in that order |
| `TriggerLimits.TriggerMatcher.CleanupOldEntries` | src/trigger-matcher.ts:259-275 | Deletes exactly the entries older than the age and returns how many |
| `TriggerLimits.TriggerMatcher.ClearSession` | src/trigger-matcher.ts:229-231 | Forgets the session |
| `AddressAgreement.ParsersAgree` | src/target-policy.ts:142-190 | The two IPv6 parsers agree on every string, except that only the second accepts "::" beside eight explicit groups |
| `AddressCompleteness.AcceptsExactlySpellings` | src/wsproxy-utils.ts:515-559 | The strict parser accepts exactly the spellings of section 2.2 of RFC 4291, each as its own eight groups |
| `AddressCompleteness.ParsedIsSpelling` | src/target-policy.ts:142-190 | Whatever the trusting parser accepts is a spelling of its result with a zone after it |
| `AddressSpelling.SpellingParses` | src/wsproxy-utils.ts:515-559 | Every spelling (any run of zeros compressed, leading zeros, either case, a dotted tail, a zone) parses to its groups in both parsers |
| `AddressSpelling.QuadParses` | src/wsproxy-utils.ts:138-151 | A dotted quad parses to its four octets |
| `AddressPrinting.QuadsRoundTrip` | src/wsproxy-utils.ts:138-151 | Any four octets written in decimal and joined by dots parse to themselves |
| `AddressPrinting.GroupsRoundTrip` | src/wsproxy-utils.ts:515-559 | Any eight groups written in hex and joined by colons parse to themselves, in both parsers |
| `AddressText.ParseIPv4Text` | src/wsproxy-utils.ts:138-151 | The octet loop computes the specified parse |
| `AddressText.ToGroupsText` | src/wsproxy-utils.ts:532-540 | The group loop computes the specified parse |
| `PrefixArithmetic.AgreeIsPrefix` | src/wsproxy-utils.ts:169-181 | Comparing group by group under masks is comparing the two addresses as numbers after division by two to the width less the prefix |
| `PrefixArithmetic.AndMask` | src/wsproxy-utils.ts:176-178 | Masking clears the low bits of a group and nothing else |
| `PrefixArithmetic.MatchesGroups` | src/wsproxy-utils.ts:561-573 | The comparison loop decides agreement of the groups under the prefix |
| `PrefixArithmetic.MappedAgrees` | src/wsproxy-utils.ts:240-256 | An IPv4 range of length p and the mapped range of length 96 + p hold the same addresses, section 2.5.5.2 of RFC 4291 |
| `AddressPolicy.MappedEntryMatches` | src/wsproxy-utils.ts:207-258 | For an IPv4 peer the trust entries a.b.c.d/p and ::ffff:a.b.c.d/(96+p) match alike |
| `AddressPolicy.IsTrustedPeer` | src/wsproxy-utils.ts:194-261 | No peer is trusted when it is empty or nothing is trusted, any other when all are, and under a list exactly those that some entry matches once normalized |
| `AddressPolicy.MatchesEntry` | src/wsproxy-utils.ts:207-258 | An entry is compared exactly or as a range of the family it is written in; a malformed one never matches |
| `TrustEntries.EntryMatchesExactly` | src/wsproxy-utils.ts:207-258 | An entry matches a peer exactly when it is the same address once normalized, or one network, one slash and one to three digits, with the prefix within the width and the same top bits as numbers; nothing else matches |
| `TrustEntries.RangeInNumbers` | src/wsproxy-utils.ts:169-181 | A range holds a peer of its family, or an IPv4 peer mapped, exactly when their numbers agree above the prefix |
| `TrustEntries.MappedPeerTrustedAlike` | src/wsproxy-utils.ts:153-166 | A peer written as a mapped address is trusted as the IPv4 address in it |
| `AddressPolicy.SpellingCannotEvade` | src/target-policy.ts:198-241 | Any text that parses is decided on its groups, however it is spelled; ReservedTargets.ReservedExactly says which groups are reserved |
| `ReservedTargets.ReservedExactly` | src/target-policy.ts:198-241 | Every text: a dotted quad or a mapped address is reserved exactly in the listed IPv4 ranges, any other IPv6 address exactly when it is :: or ::1 or its leading group lies in fc00-fdff, fe80-febf or ff00-ffff, and a text that parses as neither always |
| `ReservedTargets.QuadRanges` | src/target-policy.ts:97-127 | The IPv4 table as ranges of octets |
| `ReservedTargets.EightRanges` | src/target-policy.ts:212-230 | The decision on eight groups as ranges of numbers |
| `AddressPolicy.DottedDecidedAsMapped` | src/target-policy.ts:205-221 | A dotted quad is decided as the mapped address that embeds it |
| `AddressPolicy.ReservedV4Meaning` | src/target-policy.ts:97-127 | A reserved IPv4 range is the addresses that share its top bits as numbers |
| `AddressPolicy.LeadingRanges` | src/target-policy.ts:227-230 | The three IPv6 masks are the ranges fc00::/7, fe80::/10 and ff00::/8 of the leading group |
| `ClientAddress.ResolveClientAddress` | src/wsproxy-utils.ts:614-656 | An untrusted peer is the client whatever both headers hold; behind a trusted one a real-ip header that is not blank, trimmed, is the client; failing that the first hop when every peer is trusted, the last untrusted hop under a trust list, and the peer when there is none |
| `ClientAddress.HopsOfOne` | src/wsproxy-utils.ts:630-634 | A forwarded part that is not blank is a hop, trimmed, and a blank one is none |
| `ClientAddress.TrimDropsBlanks` | src/wsproxy-utils.ts:621-634 | Blanks at either end of a header or hop do not matter, and nothing else is trimmed |
| `ClientAddress.HopsConcat` | src/wsproxy-utils.ts:630-634 | The hops of a list of parts are those of its two halves in order |
| `ClientAddress.SpoofedHopsIgnored` | src/wsproxy-utils.ts:644-653 | With a trust list, whatever a client puts in front of what the proxies appended is ignored once an appended hop is untrusted, however the hops are spaced: the client is the last untrusted appended hop |
| `DerSearch.FindsFirst` | src/app-attest.ts:404-429 | In every definite-length encoding with lengths below 2^31 the search finds the first 32-byte OCTET STRING in pre-order, or nothing |
| `DerSearch.ExtractFindsNonce` | src/app-attest.ts:342-437 | Whatever stands before and after the Apple extension, the nonce is the first 32-byte OCTET STRING of it, with or without a critical flag |
| `DerSearch.IndexOfIsFirst` | src/app-attest.ts:342-346 | The identifier is taken at the first place it stands |
| `DerSearch.MissingExactly` | src/app-attest.ts:342-346 | The identifier is reported missing exactly when it stands nowhere |
| `DerSearch.WrongTagRefused` | src/app-attest.ts:373-402 | After the identifier and its critical flag only an OCTET STRING that can be read is an extension; otherwise the error says what stood there |
| `DerSearch.ExtractInvertsBuild` | src/app-attest.ts:450-469 | Extracting from what was built gives the nonce back, for all 32-byte nonces |
| `DerTermination.EndsExactly` | src/app-attest.ts:404-429 | The search goes on for ever exactly when some frame is entered again from itself, its cursor where it was |
| `DerTermination.ExtractEndsExactly` | src/app-attest.ts:342-437 | The nonce of a certificate never comes exactly when its extension is read and the search of its octets comes back to a frame |
| `DerTermination.SearchEnds` | src/app-attest.ts:404-429 | If no element the search reads ends inside the buffer at or before its own start, the search ends within as many elements as the buffer has bytes |
| `DerTermination.LoopNeverEnds` | src/app-attest.ts:366-370 | On a certificate whose extension is 04 84 ff ff ff fa the cursor comes back to where it was: no bound is enough and no answer comes |
| `DerSearch.NoWrap` | src/app-attest.ts:366-370 | Below 2^31 the signed 32-bit accumulation is the unsigned number |
| `DerSearch.ReadDerLength` | src/app-attest.ts:347-371 | The length loop computes the specified length; it refuses exactly an offset past the end, a first octet of 80 or above 84, and fewer octets than announced, each with its own error |
| `DerTermination.FindNonceOctet` | src/app-attest.ts:404-429 | The cursor loop and its recursion give the answer of the unbounded search, and report one that never ends as unfinished |
| `DerTermination.ExtractNonceFromCert` | src/app-attest.ts:342-437 | Locates the identifier, skips the flag and searches the extension, and is unfinished exactly when that search never ends |
| `NonceStore.AcceptedAtMostOnceInTime` | src/app-attest.ts:53-83 | Over every run with fresh nonces each is accepted at most once and only within 60 s of being issued |
| `NonceStore.OrderedAndBounded` | src/app-attest.ts:53-71 | Insertion order is expiry order and the store never holds more than 10,000 |
| `NonceStore.LiveNonceAccepted` | src/app-attest.ts:78-83 | An unexpired, unused nonce with fewer than 10,000 later issues is still accepted, whatever the store held before |
| `NonceStore.LiveIsUnexpired` | src/app-attest.ts:47-51 | Eviction keeps an entry exactly when it has not expired |
| `NonceStore.ChallengeStore.EvictExpiredChallenges` | src/app-attest.ts:47-51 | Keeps exactly the entries that have not expired, in their order |
| `NonceStore.ChallengeStore.GenerateChallenge` | src/app-attest.ts:53-71 | Evicts what expired, drops the oldest until there is room, and adds the nonce |
| `NonceStore.ChallengeStore.ValidateAndConsumeNonce` | src/app-attest.ts:78-83 | Consumes the nonce, accepting it when it has not expired |
| `ShutdownRace.OrderlyOnce` | src/shutdown.ts:55-105 | In any order of starts, settling steps and the deadline, steps begin in order, each at most once and none after completion; completion is reported at most once, and as done only after every step has begun |
| `ShutdownRace.DeadlineCompletes` | src/shutdown.ts:66-76 | While a shutdown is not complete its deadline is armed and completes it, so a step that never settles cannot hold it up |
| `ShutdownRace.SettlingCompletes` | src/shutdown.ts:78-95 | If every awaited step settles, the steps complete the shutdown |
| `ShutdownRace.OneStepAtATime` | src/shutdown.ts:78-95 | Over every run the steps begun that have to be awaited are at most one more than the settlings so far |
| `ShutdownRace.ShutdownCoordinator.Begin` | src/shutdown.ts:55-97 | Only the first start arms the deadline and runs the steps |
| `ShutdownRace.ShutdownCoordinator.RunSteps` | src/shutdown.ts:78-95 | The loop passes over steps that throw, waits at the first that does not, and ends the sequence after the last |
| `ShutdownRace.ShutdownCoordinator.FinishWith` | src/shutdown.ts:100-105 | Completes once |

## Left out

- Sockets, TLS, HTTP, DNS, push notifications, files, logging and the diagnostic page: input and output.
- Signature, hash, X.509 and CBOR checks: foreign code.
- `sendClient` in `wsproxy.ts`, the negotiation loops of legacy connections: they keep no state across reads.
- `clearAll` of the session manager: it forgets the per-address counts but not the total, so a run ends there.
- Heartbeats, push scheduling, target and port lists, client message schemas, configuration parsing: they would only add easy members.
- Trigger patterns and their matching: the model starts where a match asks the rate limit.
- `hasSequence` of the replay buffer as membership: refused chunks leave gaps, so it only over-approximates.
- Timeout of idle sessions and eviction on a device's limit: both are session removals, which the capacity runs contain at any point.
- A change of the client's address during its connection: a socket keeps the address it was resolved to.
- A change of the window size during a run: the NAWS reply reports the size the parser's session was made with.
- Order among the clients of one broadcast: they are a set, so only each client's own order is stated.
- Sharing of session objects: the manager holds sessions as values in its map, and the replay side of a session is a separate object.
- Rate-limit entries as shared objects: they are values in the matcher's map, written back at each change.
- JSON inside GMCP data: the bytes are carried as they are.
- Delivery to several clients at once: the delivery runs follow one client; the broadcast contract covers each of them.
- DerTermination.SearchEnds: states a condition that is enough for the search to end; DerTermination.EndsExactly is the exact one.
- The call stack: a search that enters a frame again from inside itself goes on for ever here, where the original ends in a stack overflow.
- How a token is compared with the session's: whether it matches, and how long the session was inactive, are inputs of a resume.
- MessageRate.AddressNeverRefuses: asks for no more connections than tracked slots, because an evicted connection starts with a fresh allowance.
- NonceStore.LiveNonceAccepted: says nothing of a nonce followed by 10,000 issues or more, which the store may or may not have dropped.
- DialPhases.SettlesInTime: takes timers to fire at their deadline; how late a real timer fires is not modelled.
