# Verification of the Moonlight WebRTC gateway for Tizen

A Dafny model of the gateway (C++) and of the TV client (JavaScript), with proofs of what
the protocols between them promise. `dafny verify dfyconfig.toml` checks everything.

The project follows the program component by component. Code that updates objects is a class
whose methods are proved to move an abstract value exactly as a specification function says;
the laws are lemmas about those functions, over every input, every run or every reachable
state. Pure code is functions; each parser has an encoder written from the standard it
implements and is proved its inverse. Threads and channels are state machines whose steps
interleave freely.

**Gamepads.** `GamepadProtocol`, `StickMapping` and `SequenceAccounting` hold the message
types and the arithmetic. `BridgeState` specifies the gateway's bridge together with the host
it drives (pad images, held mouse buttons and who pressed them); `BridgeInvariant`,
`BridgeGuarantees`, `BridgePads`, `BridgeHistory` and `BridgeOutputs` prove what every run
keeps; `InputBridge` is the class with its slot table and controller map. `GamepadClient` is
the TV's manager. `GamepadLink` joins client, a FIFO control channel, a gamepad channel that
reorders and loses, and the bridge; `GamepadSlots` shows that slots suffice, `GamepadSchedules`
which client schedules are safe under every delivery, and `GamepadSamples` and
`GamepadIdentity` what a sample and a gamepad become on the way to the host.

**Parsers.** `BitStream`, `AnnexB` and `HevcSps` are the bit reader, the byte-stream layer
and the parameter-set parser of ITU-T H.265 (sections 7.3.1.1, 7.3.2.2.1, 7.3.3, 9.2 and
Annex B); `SpsEncoding` is the encoder and the round trip, `SpsAcceptance` its converse.
`OggDemux` and `OggRoundTrip` do the same for Ogg pages (RFC 3533 section 6). `OpusFile` reads
packet durations and `OpusPackets` builds packets and headers (RFC 6716 section 3, RFC 7845
section 5). `H264Reader` splits an H.264 file into access units, `H264Files` writes such files,
and `MediaScheduler` plays the two against each other.

**Streaming.** `FlatBufferPool` is the slot pool with its move-only leases and `PoolRuns`
every sequence of calls on it. `MediaBridge` (with `VideoWindow`) is the video side of the
media bridge, `MediaRuns` its runs and `MediaReplies` what it answers. `SessionLifecycle`
interleaves threads starting and
stopping one session.

**Text and queues.** `SdpBandwidth` relates the TV's SDP injection to the gateway's reader,
`SdpSections` both to descriptions written line by line,
`SunshineEndpoint` the endpoint parser to its grammar (RFC 1123 section 2.1), `Telemetry`
the summary statistics to their definitions, `Artwork` is the artwork queue,
`ArtworkData` what it carries (RFC 4648 section 4, RFC 2397) and `ArtworkConnection` the queue
under the page's changing connections. `Basics` and `Decimals`
are shared.

Where the code does less than it might be expected to, the code is kept and the project says
exactly when the expectation holds:

- Mouse ledgers are exact for controllers announced when they enter mouse mode
  (`ExactFromEntryOn`); entered earlier, a button held across the announcement is claimed
  without having been pressed (`FirstStateIsExactIff`, `EntryBeforeAnnouncementCanBeInexact`).
- In mouse mode the host pad keeps showing the state that turned it on, also after everything
  was let go (`PadHoldsTheEntryState`); it is neutral exactly when that state's image is.
- Two `beginSession` calls on one connection (both channel handlers of the page make one) can
  misapply a state: a schedule of client calls is safe under every delivery exactly when no id
  has both a state of one registration and a takeable announcement of another
  (`StrayFreeIffNoClash`, `SecondSessionCanMisapplyStates`).
- Mouse motion is not an odd function of the stick (`MouseMotionIsNotOdd`), but for the dead
  zone (`MouseMotionIsOddExactlyInDeadZone`).
- With two stoppers one may return while the other still has the connection to close
  (`AfterStopOpenIffStillClosing`, `TwoStoppersCanLeaveItOpenForAMoment`).
- The injected bandwidth is read back exactly when the reader's video section, which asks for
  a space after `m=video`, begins before the insertion point (`GatewayReadsInjectedRate`).
- The window variance is negative when a window has no counted interval, because the average
  is then the nominal frame time (`VarianceIsMeanSquareDistance`).
- Connecting again to the same gateway while an artwork answer is awaited stalls all further
  artwork until the gateway changes: the answer is dropped with the old connection, and the
  queue keeps waiting for it (`ReconnectingStallsExactlyWhileWaiting`,
  `StallsExactlyWhenOrphaned`).

Conventions. Times are integers in microseconds, or reals where the code uses doubles. Bit
masks are sets of their bits. Answers of the Limelight API, clocks, channel acceptance and
thrown exceptions are parameters. A class's ghost log or ghost host records the calls it makes.

## Model

| member | source | states |
|---|---|---|
| `SequenceAccounting.LastIsMaximum` | src/moonlight/input/MoonlightInputBridgeV2.cpp:299-311 | for every arrival order the remembered sequence number is the maximum received, and is absent only before the first message |
| `SequenceAccounting.AcceptedExactlyTheRecords` | src/moonlight/input/MoonlightInputBridgeV2.cpp:299-306 | a state is accepted if and only if its sequence number is a strict left-to-right maximum of the arrivals |
| `SequenceAccounting.CountersAreCounts` | src/moonlight/input/MoonlightInputBridgeV2.cpp:300-312 | received = accepted + stale, and the three counters are the true counts, for fewer than 2^64 messages |
| `SequenceAccounting.GapsAreExact` | src/moonlight/input/MoonlightInputBridgeV2.cpp:307-311 | accepted + gaps = last - first + 1, with no uint64 wrap even when the top value 2^64 - 1 is received |
| `StickMapping.MapStickIsOddAndMonotone` | src/moonlight/input/MoonlightInputBridgeV2.cpp:610-617 | the stick map is odd and monotone, its invert flag negates it, and the result fits int16 |
| `StickMapping.MapTriggerIsMonotone` | src/moonlight/input/MoonlightInputBridgeV2.cpp:604-608 | the trigger map is monotone into 0..255 |
| `StickMapping.PadShowsState` | src/moonlight/input/MoonlightInputBridgeV2.cpp:285-291 | the pad of a state says control by control what the state says: the same buttons, each trigger rounded to 0..255, each axis to -32767..32767 with the vertical ones turned over |
| `StickMapping.ControlsAreIndependent` | src/moonlight/input/MoonlightInputBridgeV2.cpp:285-291 | each field of a pad follows its own control alone |
| `StickMapping.EndsAreFixed` | src/moonlight/input/MoonlightInputBridgeV2.cpp:604-617 | full deflection gives 32767 (vertical -32767) and 255, and a state at rest gives the neutral pad |
| `StickMapping.PointerFollowsTheFurtherStick` | src/moonlight/input/MoonlightInputBridgeV2.cpp:682-702 | the pointer moves right, left, down and up exactly with the stick that is pushed further, from a third of full deflection on, at 62 or 66 a tick when pushed through |
| `StickMapping.AccelerateIsMonotoneAndUnclamped` | src/moonlight/input/MoonlightInputBridgeV2.cpp:682-702 | mouse motion is monotone in the raw coordinate of the chosen stick and the int16 clamp never binds |
| `StickMapping.MouseMotionIsNotOdd` | src/moonlight/input/MoonlightInputBridgeV2.cpp:690-697 | a concrete pair showing that mouse motion is not odd: the dead zone is subtracted for both signs |
| `StickMapping.MouseMotionIsOddExactlyInDeadZone` | src/moonlight/input/MoonlightInputBridgeV2.cpp:690-697 | mouse motion is odd at a stick coordinate if and only if the coordinate is in the dead zone, for every int16 coordinate |
| `BridgeState.LowestFree` | src/moonlight/input/MoonlightInputBridgeV2.cpp:704-712 | the lowest slot without a controller, or none exactly when all sixteen are taken |
| `BridgeInvariant.RemoveKeepsInv` | src/moonlight/input/MoonlightInputBridgeV2.cpp:743-810 | removal releases every button the controller holds, leaves its slot neutral on the host, and keeps the whole bridge invariant |
| `BridgeInvariant.ConnectKeepsInv` | src/moonlight/input/MoonlightInputBridgeV2.cpp:151-217 | a registration, also of an id already registered, keeps the bridge invariant |
| `BridgeInvariant.ConnectTakesLowestFreeSlot` | src/moonlight/input/MoonlightInputBridgeV2.cpp:181-217 | a new controller gets the lowest slot free after the removal of its own earlier registration; other controllers stay as they are; with no free slot nothing is registered |
| `BridgeInvariant.ClearedInAnyOrder` | src/moonlight/input/MoonlightInputBridgeV2.cpp:812-818 | removing all controllers in any order of the map ends in the same quiet state |
| `BridgeInvariant.EmptyIsCleared` | src/moonlight/input/MoonlightInputBridgeV2.cpp:812-818 | once the last controller is gone the mask is already zero, before it is reset |
| `BridgeInvariant.InputKeepsInv` | src/moonlight/input/MoonlightInputBridgeV2.cpp:293-409 | any gamepad state, fresh, stale, toggling mouse mode or not, keeps the bridge invariant |
| `BridgeInvariant.RumbleKeepsInv` | src/moonlight/input/MoonlightInputBridgeV2.cpp:411-448 | a rumble for a taken slot always finds a controller and that controller is on that slot |
| `BridgeInvariant.StepKeepsInv` | src/moonlight/input/MoonlightInputBridgeV2.cpp:151-491 | every public operation keeps the bridge invariant (slot structure, neutral free slots, held buttons accounted for) |
| `BridgeGuarantees.NoStuckInput` | src/moonlight/input/MoonlightInputBridgeV2.cpp:293-491 | after every run: each held mouse button is simulated by a live controller, a pad that is not neutral belongs to an announced one (which image it shows: BridgePads.PadFollowsForwardedStates), and ending the session, losing the transport or shutting down leaves nothing held and every pad neutral |
| `BridgeGuarantees.SlotsAndControllersAgree` | src/moonlight/input/MoonlightInputBridgeV2.cpp:184-217 | after every run controllers and slots are mutually inverse, a mask bit is set exactly for taken slots, an announced controller means an active session, and there are at most sixteen |
| `BridgeGuarantees.EntryIsExact` | src/moonlight/input/MoonlightInputBridgeV2.cpp:325-348 | entering mouse mode while announced presses nothing, suppresses what is held, and starts with an exact ledger |
| `BridgeGuarantees.TrimmedSuppression` | src/moonlight/input/MoonlightInputBridgeV2.cpp:380-390 | trimming the suppression set by the new state does not change what it hides |
| `BridgeGuarantees.StepKeepsExactLedger` | src/moonlight/input/MoonlightInputBridgeV2.cpp:151-491 | an exact ledger (buttons pressed and not released = buttons simulated) stays exact under every operation that leaves the controller in mouse mode |
| `BridgeGuarantees.ExactWhileInMouseMode` | src/moonlight/input/MoonlightInputBridgeV2.cpp:293-409 | an exact ledger stays exact over every run for as long as the controller stays in mouse mode |
| `BridgeGuarantees.ExactFromEntryOn` | src/moonlight/input/MoonlightInputBridgeV2.cpp:293-409 | over every run: from an entry while announced the ledger is exact after every message, until mouse mode ends |
| `BridgeGuarantees.PhantomLaw` | src/moonlight/input/MoonlightInputBridgeV2.cpp:354-407 | for any mouse-mode state: exactly which buttons are claimed as simulated without having been pressed |
| `BridgeGuarantees.ExactIffNothingHeldUnpressed` | src/moonlight/input/MoonlightInputBridgeV2.cpp:325-407 | when mouse mode was entered before the announcement, the ledger is exact after a state if and only if no unsuppressed, unpressed button is held across it |
| `BridgeGuarantees.FirstStateIsExactIff` | src/moonlight/input/MoonlightInputBridgeV2.cpp:325-407 | over every run with entry before the announcement: the first state after the announcement leaves the ledger exact if and only if no unsuppressed mouse button is down both in it and in the state before it |
| `BridgeGuarantees.EntryBeforeAnnouncementCanBeInexact` | src/moonlight/input/MoonlightInputBridgeV2.cpp:325-407 | a concrete run from the start (Start held before the session, A held across its beginning) that ends with a button claimed as simulated and never pressed |
| `BridgeGuarantees.HeldAtEntryStaysSilent` | src/moonlight/input/MoonlightInputBridgeV2.cpp:340-407 | a button held when mouse mode was entered is never pressed on the host until it was released |
| `BridgePads.PadFollowsForwardedStates` | src/moonlight/input/MoonlightInputBridgeV2.cpp:325-409 | after every run a controller's host pad says, control by control and to the nearest unit, what the last state said that was accepted while live and not inside mouse mode (before it, at entry or at exit) since its registration, and nothing if there was none |
| `BridgePads.PadHoldsTheEntryState` | src/moonlight/input/MoonlightInputBridgeV2.cpp:325-348 | from an entry while announced until mouse mode ends, over every run, the host pad says control by control what the entry state said |
| `BridgePads.EarlyEntryKeepsPadNeutral` | src/moonlight/input/MoonlightInputBridgeV2.cpp:325-348 | entered before the announcement, the pad stays neutral until mouse mode ends |
| `BridgeOutputs.MouseEdgesReachTheHost` | src/moonlight/input/MoonlightInputBridgeV2.cpp:103-119 | in mouse mode A, B, X and the bumpers hold the left, right, middle and side buttons of the host: pressed by a rising edge, let go by a falling one, otherwise unchanged |
| `BridgeOutputs.LeavingLetsGo` | src/moonlight/input/MoonlightInputBridgeV2.cpp:327-343 | the long press that ends mouse mode lets go of everything its controller held |
| `BridgeOutputs.RumbleReachesItsMotors` | src/moonlight/input/MoonlightInputBridgeV2.cpp:411-430 | the low frequency motor sets the strong magnitude, the high one the weak, as shares of 65535, of the controller on that slot and of nobody else |
| `BridgeOutputs.TriggerRumbleReachesItsMotors` | src/moonlight/input/MoonlightInputBridgeV2.cpp:432-448 | the trigger motors likewise, left and right |
| `BridgeOutputs.AnnouncedExactlyWhenArrived` | src/moonlight/input/MoonlightInputBridgeV2.cpp:714-741 | after every run a controller is announced if and only if the host took an arrival of its registration, made during a session or at the start of one |
| `BridgeOutputs.SessionFollowsItsSwitch` | src/moonlight/input/MoonlightInputBridgeV2.cpp:450-491 | after every run the bridge is closed exactly when it was shut down, and its session on exactly when the last switch was to on and it was not shut down |
| `BridgeHistory.RegistrationFollowsItsMessages` | src/moonlight/input/MoonlightInputBridgeV2.cpp:293-352 | in every run a controller's accounting is the fold of the states heard since its registration, mouse mode is on exactly after an odd number of presses of Start longer than 750 ms, and the pad kept for the pointer shows the last accepted state control by control |
| `InputBridge.MoonlightInputBridge.constructor` | src/moonlight/input/MoonlightInputBridgeV2.cpp:123-144 | a new bridge has no controllers, an empty slot table and an empty mask |
| `InputBridge.MoonlightInputBridge.ReleaseMouseButtons` | src/moonlight/input/MoonlightInputBridgeV2.cpp:780-796 | the loop releases exactly the simulated buttons and clears both sets |
| `InputBridge.MoonlightInputBridge.ForwardMouseEdges` | src/moonlight/input/MoonlightInputBridgeV2.cpp:391-403 | the loop presses exactly the rising and releases exactly the falling unsuppressed mouse buttons |
| `InputBridge.MoonlightInputBridge.AllocateSlot` | src/moonlight/input/MoonlightInputBridgeV2.cpp:704-712 | the search returns the lowest free slot |
| `InputBridge.MoonlightInputBridge.RemoveController` | src/moonlight/input/MoonlightInputBridgeV2.cpp:798-810 | removal in place moves the state exactly as the specification says |
| `InputBridge.MoonlightInputBridge.ClearControllers` | src/moonlight/input/MoonlightInputBridgeV2.cpp:812-818 | the loop terminates and leaves the cleared state, whatever the order of the map |
| `InputBridge.MoonlightInputBridge.HandleConnected` | src/moonlight/input/MoonlightInputBridgeV2.cpp:151-217 | the handler's whole effect and its answer |
| `InputBridge.MoonlightInputBridge.HandleDisconnected` | src/moonlight/input/MoonlightInputBridgeV2.cpp:220-231 | the handler's whole effect; it answers whether the controller existed |
| `InputBridge.MoonlightInputBridge.HandleGamepadState` | src/moonlight/input/MoonlightInputBridgeV2.cpp:244-409 | the handler's whole effect; it answers true exactly for a well-formed state of a registered controller with a sequence above the last one. What the host then shows, control by control, is BridgePads.PadFollowsForwardedStates; which mouse buttons it holds is BridgeOutputs.MouseEdgesReachTheHost |
| `InputBridge.MoonlightInputBridge.SetMoonlightSessionActive` | src/moonlight/input/MoonlightInputBridgeV2.cpp:450-465 | activation announces every controller, deactivation clears them |
| `InputBridge.MoonlightInputBridge.OnTransportClosed` | src/moonlight/input/MoonlightInputBridgeV2.cpp:467-473 | losing the transport clears the controllers unless shut down |
| `InputBridge.MoonlightInputBridge.ShutdownBridge` | src/moonlight/input/MoonlightInputBridgeV2.cpp:475-491 | shutdown clears, deactivates and closes, once |
| `InputBridge.MoonlightInputBridge.HandleRumble` | src/moonlight/input/MoonlightInputBridgeV2.cpp:411-430 | rumble reaches the controller on that slot, if there is one that can rumble |
| `InputBridge.MoonlightInputBridge.HandleTriggerRumble` | src/moonlight/input/MoonlightInputBridgeV2.cpp:432-448 | trigger rumble likewise |
| `InputBridge.MoonlightInputBridge.MouseTick` | src/moonlight/input/MoonlightInputBridgeV2.cpp:899-936 | one worker tick moves the mouse once for each live controller in mouse mode with non-zero motion, by the motion of its latest sticks |
| `GamepadClient.RegisterKeepsInv` | tizen/gamepad-input.js:206-252 | registering keeps the manager's invariant: at most sixteen records, distinct ids below the counter |
| `GamepadClient.UnregisterKeepsInv` | tizen/gamepad-input.js:515-537 | unregistering keeps it too |
| `GamepadClient.GamepadInputManager.AnnounceRecord` | tizen/gamepad-input.js:285-310 | an announcement is sent once, when the channel takes it |
| `GamepadClient.GamepadInputManager.RegisterGamepad` | tizen/gamepad-input.js:206-262 | the two record maps, the id counter and the sent messages after a registration |
| `GamepadClient.GamepadInputManager.SendRecordState` | tizen/gamepad-input.js:312-355 | a state carries the next sequence number, which advances only when the channel takes it; that it carries the sample control by control is GamepadSamples.SentAsSampled |
| `GamepadClient.GamepadInputManager.UnregisterGamepad` | tizen/gamepad-input.js:515-537 | a final neutral state, then the notification if asked for; the record is gone |
| `GamepadClient.GamepadInputManager.Suspend` | tizen/gamepad-input.js:625-636 | every record is unregistered in the map's order, each with its farewell as far as the channels take it, and none is left |
| `GamepadClient.EachSaysFarewell` | tizen/gamepad-input.js:515-536 | when all records go each announced one sends a state with everything let go under its next sequence number, and the notice if asked for, as far as the channels take them |
| `GamepadClient.GamepadInputManager.BeginSession` | tizen/gamepad-input.js:638-642 | the records are unregistered with their farewell states and without notice, and ids start over at 1 |
| `GamepadSamples.SentAsSampled` | tizen/gamepad-input.js:312-355 | over every run, with any number of sessions, the k-th state sent for an id carries control by control the k-th sample taken for it, farewells included, and there are no others |
| `GamepadSamples.AcceptedAsSampled` | tizen/gamepad-input.js:312-355 | over every run of one session a state the bridge accepts carries what was sampled for the one registration of its id |
| `GamepadSamples.PadShowsTheSample` | src/moonlight/input/MoonlightInputBridgeV2.cpp:285-409 | from sample to host, over every run of one session: the pad the host shows says control by control what was sampled for that registration when the last forwarded state was sent |
| `GamepadSamples.FarewellLeavesPadNeutral` | tizen/gamepad-input.js:515-530 | the farewell of an unregistration, whenever it is taken and forwarded, leaves every control of the host pad let go |
| `GamepadSamples.RunIsBridgeRun` | src/main.cpp:655-699 | every run of client, channels and bridge is, for the bridge, a run of its own operations, so that all its laws hold there |
| `GamepadIdentity.ControllersAreTheirGamepads` | tizen/gamepad-input.js:206-310 | over every run of one session a controller of the bridge has the name, the button count and the motors of the gamepad that was given its id |
| `GamepadLink.AcceptedInOrder` | src/main.cpp:655-699 | over a lossy, reordering gamepad channel and a FIFO control channel, with one session per connection, the states accepted for an id are an in-order subsequence of those sent for it, and no state of a removed registration is ever applied to a later one |
| `GamepadLink.StepKeepsInv` | src/main.cpp:655-699 | the link invariant (ids never reused, k-th state of an id has sequence k + 1, bridge memory matches what was accepted) is kept by every step |
| `GamepadSlots.AnnouncementsAlwaysGetASlot` | src/moonlight/input/MoonlightInputBridgeV2.cpp:181-191 | while every disconnect is notified, an announcement that reaches an open bridge always gets a slot |
| `GamepadSchedules.StrayFreeIffNoClash` | tizen/app.js:3586-3630 | for every schedule of client calls, any number of beginSession calls included: no delivery order ever applies a state to a registration that did not send it if and only if the schedule does not clash, that is, puts on the channels no state of one registration and no takeable announcement of another registration of the same id; takeable means within the limits and, when sessions stay up, finding a slot |
| `GamepadSchedules.NoClashNoStray` | tizen/gamepad-input.js:595-642 | without a clash every interleaving of the schedule with deliveries, losses and session changes is free of misapplied states |
| `GamepadSchedules.ClashShows` | tizen/gamepad-input.js:595-642 | for each clash an interleaving, built from it, in which that state is misapplied |
| `GamepadSchedules.OneSessionNeverClashes` | tizen/gamepad-input.js:206-262 | a schedule without a second beginSession never clashes |
| `GamepadSchedules.SecondSessionCanMisapplyStates` | tizen/app.js:3586-3630 | beginSession twice on one connection with a gamepad present both times and one state taken between: reordering alone misapplies it |
| `BitStream.BitReader.ReadBits` | src/media/HevcSpsParser.cpp:17-30 | the bit loop returns the binary value of the next bits, below 2^32 without losing a bit, or fails and moves nothing |
| `BitStream.BitReader.Skip` | src/media/HevcSpsParser.cpp:32-40 | skipping moves exactly that far or fails |
| `BitStream.BitReader.ReadUnsignedExpGolomb` | src/media/HevcSpsParser.cpp:42-62 | the reader returns the ue(v) value of the bits ahead and never overflows uint32 |
| `AnnexB.NextStart` | src/media/HevcSpsParser.cpp:69-80 | the first position at or after an offset where a start code begins, or the end |
| `AnnexB.NoCodeInsideNal` | src/media/HevcSpsParser.cpp:69-80 | no start code begins inside a NAL unit that Annex B allows, whatever follows it |
| `AnnexB.FirstUnitEnds` | src/media/HevcSpsParser.cpp:204-208 | in a stream of such units the scan cuts out exactly the first one |
| `AnnexB.UnescapeInvertsEscape` | src/media/HevcSpsParser.cpp:82-96 | removing emulation prevention bytes inverts their insertion, for every payload |
| `AnnexB.EscapedNalIsClean` | src/media/HevcSpsParser.cpp:82-96 | a NAL unit built with emulation prevention holds none of 00 00 00, 00 00 01 and 00 00 02 and ends non-zero |
| `AnnexB.Rbsp` | src/media/HevcSpsParser.cpp:82-96 | the one-pass loop computes that removal |
| `HevcSps.ReadPresence` | src/media/HevcSpsParser.cpp:128-138 | the loop over sub-layer flags fills the two seven-entry arrays as the syntax says, in bounds |
| `HevcSps.ReadSubLayers` | src/media/HevcSpsParser.cpp:128-150 | the reserved bits and the optional profile and level of each sub-layer are skipped exactly |
| `HevcSps.ParseSpsNal` | src/media/HevcSpsParser.cpp:98-186 | the parser returns what the syntax defines for the NAL unit, or nothing |
| `HevcSps.ParseHevcSps` | src/media/HevcSpsParser.cpp:196-215 | the scan returns the first unit that parses as a parameter set; which units those are, with the header in bytes, is SpsAcceptance.AcceptedUnits |
| `SpsEncoding.ExpGolombInvertsUe` | src/media/HevcSpsParser.cpp:42-62 | every value up to 2^32 - 2 survives ue(v) encoding and decoding |
| `SpsEncoding.BitsOfInvertsPack` | src/media/HevcSpsParser.cpp:17-30 | bits packed into bytes are read back most significant first |
| `SpsEncoding.ReadsSubLayers` | src/media/HevcSpsParser.cpp:128-150 | the sub-layer part of any well-formed set (0 to 7 sub-layers, any flags) is consumed exactly |
| `SpsEncoding.ParseInvertsBits` | src/media/HevcSpsParser.cpp:98-186 | bit level: the parser gives back profile, Main 10 compatibility, chroma format and bit depths of any well-formed set, whatever bits follow |
| `SpsEncoding.SpsNalIsClean` | src/media/HevcSpsParser.cpp:82-96 | the encoded unit contains none of 00 00 00, 00 00 01 and 00 00 02, hence no start code, and ends non-zero |
| `SpsEncoding.ScanFindsFirst` | src/media/HevcSpsParser.cpp:196-215 | units that hold no parameter set are passed over |
| `SpsEncoding.ParseInvertsEncode` | src/media/HevcSpsParser.cpp:98-215 | the round trip on whole streams: any clean units without a parameter set before it, 3- or 4-byte start codes, any header of type 33, any well-formed set and any later fields give back exactly what was encoded |
| `SpsAcceptance.UeTaken` | src/media/HevcSpsParser.cpp:43-62 | every Exp-Golomb number that is read is the standard's code of its value, at most 2^32 - 2 |
| `SpsAcceptance.AcceptsExactlyWellFormedSets` | src/media/HevcSpsParser.cpp:98-186 | bit level, both directions: the parser returns a record if and only if the bits are those of a well-formed parameter set, followed by anything, that says just this |
| `SpsAcceptance.AcceptedUnits` | src/media/HevcSpsParser.cpp:82-186 | a NAL unit yields a record if and only if its first byte is 66 or 67 (194 or 195 with the forbidden bit), it has three bytes or more, and its bytes without emulation prevention hold a well-formed set that says just this |
| `OggDemux.OpenPacketLength` | src/OpusFileReader.cpp:146-149 | the open packet is 255 bytes for each trailing full segment, so testing it for emptiness tests exactly whether a packet is open |
| `OggDemux.FeedInvertsLacing` | src/OpusFileReader.cpp:166-179 | the segments of any packet list, empty packets and multiples of 255 included, assemble to that list |
| `OggDemux.LacingInvertsFeed` | src/OpusFileReader.cpp:166-179 | no other segments do: the segments are the lacing of the packets they assemble to |
| `OggDemux.CutInvertsPayload` | src/OpusFileReader.cpp:151-179 | cutting a page payload by its lacing values gives back its segments |
| `OggDemux.ExtractOggPackets` | src/OpusFileReader.cpp:117-189 | the two nested loops return the packets, or the first error in the code's order, as specified page by page |
| `OggRoundTrip.ParseInvertsPage` | src/OpusFileReader.cpp:126-181 | a page is parsed back whole, whatever follows it |
| `OggRoundTrip.PageInvertsParse` | src/OpusFileReader.cpp:126-181 | data that parses is the bytes of the page it parses as |
| `OggRoundTrip.ExtractsExactlyWhatIsCarried` | src/OpusFileReader.cpp:117-189 | a file yields a packet list if and only if it is a single logical stream carrying those packets: consecutive sequence numbers modulo 2^32, right continued flags, any division of the lacing into pages |
| `OpusFile.FrameSizesFollowTheTable` | src/OpusFileReader.cpp:76-85 | samples per frame are those of table 2 of RFC 6716 for all 32 configurations |
| `OpusFile.PacketsAreWholeUnits` | src/OpusFileReader.cpp:67-115 | every accepted packet lasts a whole number of 120-sample units and at most 120 ms |
| `OpusFile.OpenOpusFile` | src/OpusFileReader.cpp:193-218 | the reader accepts exactly the streams with valid headers and valid packets, and gives each packet its sample count; what counts as valid is OpusPackets.CountsExactlyItsFrames and HeadersAreReadBack |
| `OpusPackets.BuiltPacketIsCounted` | src/OpusFileReader.cpp:67-115 | a packet built from any list of frames in any of the four packings of RFC 6716 section 3.2 counts as many frames as were put in, each of the duration of table 2, and is refused beyond 120 ms |
| `OpusPackets.CountsExactlyItsFrames` | src/OpusFileReader.cpp:67-115 | a packet counts n samples if and only if it begins as a packet of some frames does that last n samples and at most 120 ms |
| `OpusPackets.HeadersAreReadBack` | src/OpusFileReader.cpp:196-217 | headers built as RFC 7845 section 5 says are accepted exactly for major version 0, some channel and 48000 Hz, and channels and pre-skip are read back |
| `OpusFile.TotalIsSumOfDurations` | src/OpusFileReader.cpp:245-262 | the total duration is the sum of the packet durations: no time is lost to rounding |
| `H264Reader.FindStartCode` | src/H264AnnexBReader.cpp:18-35 | the search returns the least position where a start code begins, with its length, or none exactly when there is none |
| `H264Reader.NalsTile` | src/H264AnnexBReader.cpp:73-105 | the NAL units found cover the file without gap or overlap |
| `H264Reader.ReadAnnexB` | src/H264AnnexBReader.cpp:61-114 | the loop fails exactly for a missing start code, a final empty unit or no delimiter, and otherwise returns the units cut at the delimiters, the first IDR's unit and the types seen |
| `H264Reader.RunSplits` | src/H264AnnexBReader.cpp:93-113 | as many units as delimiters, each the stretch from one delimiter to the next |
| `H264Reader.RunNamesFirstIdr` | src/H264AnnexBReader.cpp:88-91 | the recorded index is the unit of the first IDR, if any |
| `H264Reader.UnitsConcatenateToFile` | src/H264AnnexBReader.cpp:101-113 | the access units concatenate back to the file |
| `H264Reader.UnitsStartWithDelimiters` | src/H264AnnexBReader.cpp:93-113 | every unit but possibly the first begins with an access unit delimiter |
| `H264Reader.NalLiesInItsUnit` | src/H264AnnexBReader.cpp:93-105 | each NAL unit lies wholly inside the access unit named for it |
| `H264Reader.FirstIdrUnit` | src/H264AnnexBReader.cpp:88-91 | the first-IDR index is in range, its unit holds the earliest IDR NAL unit whole, and no earlier unit holds one |
| `H264Files.FileIsAccepted` | src/H264AnnexBReader.cpp:61-114 | a file written from access units, each begun by a delimiter and made of clean NAL units behind 3- or 4-byte start codes, is accepted |
| `H264Files.FileIsReadBack` | src/H264AnnexBReader.cpp:73-114 | and the reader gives back the access units byte for byte, and as first IDR the first one that holds a NAL unit of type 5 |
| `H264Files.FileIsDescribed` | src/H264AnnexBReader.cpp:75-92 | and says rightly whether there are parameter sets (types 7 and 8), IDR slices and start codes of either length |
| `MediaScheduler.StreamTestMedia` | src/main.cpp:1014-1150 | the loop sends exactly the specified sequence until it is stopped or a send throws |
| `MediaScheduler.SendTimesNeverDecrease` | src/main.cpp:1044-1053 | send times never go back, over every run |
| `MediaScheduler.ClocksStayTogether` | src/main.cpp:1044-1118 | at every turn video leads by at most one frame and audio by under 120 ms, indices are in range across loops and IDR jumps, and audio time equals the samples sent exactly |
| `MediaScheduler.VideoRtpAdvancesByOneFrame` | src/main.cpp:1078-1081 | successive frames differ by 1500 RTP ticks across the 32-bit wrap |
| `MediaScheduler.AudioRtpAdvancesBySamples` | src/main.cpp:1100-1112 | successive audio packets differ by the first one's sample count |
| `MediaScheduler.NextVideoAfterRequestIsIdr` | src/main.cpp:1065-1076 | a keyframe request is answered by the next video turn with the first IDR unit |
| `MediaScheduler.SendsAreOnTime` | src/main.cpp:1044-1112 | over every run the n-th video unit is sent n/60 s after the start with RTP time 1500 n, and a packet exactly when the packets before it have played at 48 kHz, the file repeating |
| `MediaScheduler.UnitsFollowOneAnother` | src/main.cpp:1065-1090 | after a video unit comes the next one, or the first after the last, or the first IDR exactly if a keyframe was asked for since |
| `MediaScheduler.FirstUnitIsFirst` | src/main.cpp:1044-1081 | the first send is the first unit at time zero, or the first IDR if a keyframe was asked for |
| `MediaScheduler.AcceptedFilesArePlayable` | src/main.cpp:1014-1118 | files the two readers accept meet what the scheduler needs |
| `FlatBufferPool.NothingFreeMeansAllUsed` | src/moonlight/FlatBufferPool.cpp:81-100 | the cyclic search visits every slot: the pool grows only when all are in use |
| `FlatBufferPool.SlotsTakeTurns` | src/moonlight/FlatBufferPool.cpp:81-100 | a slot that was just given back is not taken again while another one is free |
| `FlatBufferPool.EntriesAreJoinedInOrder` | src/moonlight/FlatBufferPool.cpp:112-124 | each byte of the chain comes after all bytes of the entries before its own |
| `FlatBufferPool.FlatBufferPool.AcquireSlot` | src/moonlight/FlatBufferPool.cpp:75-101 | the search loop takes the first free slot in cyclic order or adds one |
| `FlatBufferPool.CopyChain` | src/moonlight/FlatBufferPool.cpp:106-126 | the copy loop writes the prefix, then the chain up to the first unusable entry |
| `FlatBufferPool.FlatBufferPool.Flatten` | src/moonlight/FlatBufferPool.cpp:64-140 | the call's whole effect on the pool and its lease |
| `FlatBufferPool.FlatBufferPool.ReleaseSlot` | src/moonlight/FlatBufferPool.cpp:142-148 | release frees that slot and nothing else |
| `FlatBufferPool.FlatBufferPool.CountActive` | src/moonlight/FlatBufferPool.cpp:165-175 | the count of slots in use |
| `FlatBufferPool.FlatBufferLease.MovedOutOf` | src/moonlight/FlatBufferPool.cpp:26-35 | move construction carries slot and size over and empties the source |
| `FlatBufferPool.FlatBufferLease.MoveAssign` | src/moonlight/FlatBufferPool.cpp:37-53 | move assignment first gives back the target's slot; assigning to itself does nothing |
| `FlatBufferPool.FlatBufferLease.Destroy` | src/moonlight/FlatBufferPool.cpp:19-24 | destruction gives the slot back exactly if one is held |
| `PoolRuns.AlternatingBalances` | src/moonlight/FlatBufferPool.cpp:19-53 | in a log where each slot is taken and given back in turn, every acquisition is released exactly once or is still out |
| `PoolRuns.AcquireKeepsLog` | src/moonlight/FlatBufferPool.cpp:78-101 | an acquisition takes a slot that was in and keeps the slot count at the maximum of initial size and peak |
| `PoolRuns.StepKeepsInv` | src/moonlight/FlatBufferPool.cpp:19-148 | every flatten, move and destroy keeps the pool invariant |
| `PoolRuns.PoolSafety` | src/moonlight/FlatBufferPool.cpp:19-175 | after every run: live leases hold distinct slots, slots in use are as many as live leases, the slot count is the maximum of the initial size and the peak of concurrent acquisitions, and each acquisition was released exactly once or is still out |
| `PoolRuns.FlattenYieldsTheUnit` | src/moonlight/FlatBufferPool.cpp:64-140 | flatten yields a lease exactly for a complete unit, viewing prefix then chain in a slot no other lease holds; a failed flatten leaks nothing |
| `PoolRuns.BytesAreStable` | src/moonlight/FlatBufferPool.cpp:19-148 | over any stretch of a run that does not name it, a live lease keeps its slot and its bytes |
| `PoolRuns.MoveCarriesTheBytes` | src/moonlight/FlatBufferPool.cpp:26-53 | a move carries slot and bytes to the new object and empties the old one |
| `VideoWindow.SubmitHolds` | src/moonlight/MoonlightMediaBridge.cpp:469-505 | the running sums are those of at most one interval a frame, each between 0 and 1000 ms |
| `VideoWindow.ReportsEveryHalfSecond` | src/moonlight/MoonlightMediaBridge.cpp:469-520 | a report is made by the first frame half a second or more after the window began; it says how many frames there were and their mean interval, and the next window begins |
| `VideoWindow.VarianceIsMeanSquareDistance` | src/moonlight/MoonlightMediaBridge.cpp:494-505 | the variance is the mean squared distance from the average, frames without an interval counting as zero; it is non-negative if and only if the window has an interval |
| `VideoWindow.SumsSatisfyCauchySchwarz` | src/moonlight/MoonlightMediaBridge.cpp:478-482 | (sum of x)^2 <= frames * (sum of x^2) in every window |
| `MediaBridge.MoonlightMediaBridge.constructor` | src/moonlight/MoonlightMediaBridge.cpp:20-46 | the initial state |
| `MediaBridge.MoonlightMediaBridge.OnWebRtcKeyframeRequest` | src/moonlight/MoonlightMediaBridge.cpp:66-69 | a request is remembered |
| `MediaBridge.MoonlightMediaBridge.VideoSetup` | src/moonlight/MoonlightMediaBridge.cpp:213-275 | setup accepts or rejects the format and derives the deadline |
| `MediaBridge.MoonlightMediaBridge.VideoStart` | src/moonlight/MoonlightMediaBridge.cpp:114-123 | starting sets the flag and the HDR deadline of the active bridge |
| `MediaBridge.MoonlightMediaBridge.VideoStop` | src/moonlight/MoonlightMediaBridge.cpp:125-130 | stopping clears the flag of the active bridge |
| `MediaBridge.MoonlightMediaBridge.VideoCleanup` | src/moonlight/MoonlightMediaBridge.cpp:132-138 | cleanup deactivates the bridge and clears both flags |
| `MediaBridge.MoonlightMediaBridge.FailHdrValidation` | src/moonlight/MoonlightMediaBridge.cpp:652-661 | the failure handler is called the first time only |
| `MediaBridge.MoonlightMediaBridge.ProbeMain10` | src/moonlight/MoonlightMediaBridge.cpp:355-387 | the Main 10 evidence of one unit, from its first parameter set or its flags |
| `MediaBridge.MoonlightMediaBridge.ValidateHdr` | src/moonlight/MoonlightMediaBridge.cpp:347-414 | the HDR flags after one unit |
| `MediaBridge.MoonlightMediaBridge.RecordFrame` | src/moonlight/MoonlightMediaBridge.cpp:469-555 | the window and the published report after one frame |
| `MediaBridge.MoonlightMediaBridge.DropIfLate` | src/moonlight/MoonlightMediaBridge.cpp:284-302 | the deadline policy's reply and state |
| `MediaBridge.MoonlightMediaBridge.AfterSend` | src/moonlight/MoonlightMediaBridge.cpp:418-576 | counters, waiting flag, window and reply after a completed send |
| `MediaBridge.MoonlightMediaBridge.SubmitVideo` | src/moonlight/MoonlightMediaBridge.cpp:277-577 | the whole new state, and the reply by what the caller sees: an IDR frame is asked for exactly when the submission is refused, when a late frame is dropped with none awaited, when the unit is incomplete, when the send throws, or when it is sent with a request pending |
| `MediaRuns.KindIsDecidedByTheFrame` | src/moonlight/MoonlightMediaBridge.cpp:284-321 | a submission that reaches the policy is exactly one of dropped, invalid, thrown and sent, by conditions a caller can see; an IDR frame is never dropped |
| `MediaReplies.NeedIdrExactlyWhen` | src/moonlight/MoonlightMediaBridge.cpp:277-321 | the reply asks for an IDR frame if and only if the submission is refused, a late frame is dropped with none awaited, the unit is not whole, the send throws, or a request is pending |
| `MediaReplies.RepliesFollowTheRun` | src/moonlight/MoonlightMediaBridge.cpp:277-577 | the reply to a unit at any point of any run, by the events alone: set-up, start, deadline, what is awaited and what is pending are all read off them |
| `MediaReplies.FlagsAreTheCallbacks` | src/moonlight/MoonlightMediaBridge.cpp:114-138 | over every run the bridge is active, configured and started exactly as the renderer callbacks so far say, and its deadline is that of the last matching setup |
| `MediaReplies.WaitingIffAwaited` | src/moonlight/MoonlightMediaBridge.cpp:291-301 | an IDR frame is awaited exactly when a drop or a forwarded request asked for one and none was sent since |
| `MediaReplies.UnitsAreHandedOnWhole` | src/moonlight/MoonlightMediaBridge.cpp:304-321 | a unit is handed on exactly if its entries add up to its declared length, unchanged for H.264 and HEVC; an AV1 unit always begins with a temporal delimiter, its own or one put in front |
| `MediaRuns.DropRequestsAreSeparatedByIdr` | src/moonlight/MoonlightMediaBridge.cpp:288-302 | between two IDR requests of the drop policy an IDR frame was sent, over every run |
| `MediaRuns.SendForwardsPendingRequest` | src/moonlight/MoonlightMediaBridge.cpp:570-574 | a completed send forwards a WebRTC request if and only if one was made since the previous completed send |
| `MediaRuns.PendingIffRequested` | src/moonlight/MoonlightMediaBridge.cpp:66-74 | a request is pending exactly when one was made since the last completed send: drops, invalid units and failed sends keep it |
| `MediaRuns.CountersMatchKinds` | src/moonlight/MoonlightMediaBridge.cpp:291-425 | the drop, frame and byte counters are the counts of the submissions of each kind |
| `MediaRuns.VerdictIsSound` | src/moonlight/MoonlightMediaBridge.cpp:347-414 | in every reachable state HDR has not both passed and failed and the handler was called exactly once if it failed, else never |
| `MediaRuns.VerdictStands` | src/moonlight/MoonlightMediaBridge.cpp:347-414 | a verdict, once given, stands |
| `MediaRuns.PassedExactlyWithEvidence` | src/moonlight/MoonlightMediaBridge.cpp:347-396 | while no failure is recorded, HDR has passed if and only if the units validated so far showed all the required evidence |
| `MediaRuns.FailureHasACause` | src/moonlight/MoonlightMediaBridge.cpp:378-412 | a failure comes from a parameter set that is not Main 10 4:2:0 or from missing evidence at the deadline |
| `MediaReplies.FailsExactlyWhen` | src/moonlight/MoonlightMediaBridge.cpp:378-412 | exactly when a stream fails: a first parameter set that is not 4:2:0 at ten bits of a Main 10 compatible profile before any was, or evidence missing at the deadline |
| `MediaReplies.FirstSetDecides` | src/moonlight/MoonlightMediaBridge.cpp:355-387 | the first parameter set encoded in an HEVC unit verifies Main 10 if it says profile 2 or flag 2, chroma format 1 and two bit depths of ten, and fails the stream otherwise |
| `MediaRuns.DeadlineIsInFrameIntervals` | src/moonlight/MoonlightMediaBridge.cpp:260-271 | the deadline is 1.5 or 3 frame intervals, and in the smoothest mode no frame is ever late |
| `MediaRuns.FramesNeedSetupAndStart` | src/moonlight/MoonlightMediaBridge.cpp:114-138 | a frame is sent only after an accepted setup and a start that nothing has undone since |
| `MediaRuns.HdrDeadlineIsTwoSecondsAfterStart` | src/moonlight/MoonlightMediaBridge.cpp:114-123 | the HDR deadline in force is two seconds after the last start that took effect |
| `MediaRuns.ReportsAreSound` | src/moonlight/MoonlightMediaBridge.cpp:489-505 | every window closed in a run obeys the two statistical laws |
| `SessionLifecycle.StepKeepsInv` | src/moonlight/control/MoonlightSession.cpp:246-393 | every interleaved atomic step keeps the lifecycle invariant |
| `SessionLifecycle.ConnectionCallsHappenOnce` | src/moonlight/control/MoonlightSession.cpp:345-393 | with any number of starters and stoppers LiStartConnection runs at most once, LiStopConnection at most once and only after a successful start |
| `SessionLifecycle.StopNeverOverlapsStart` | src/moonlight/control/MoonlightSession.cpp:345-393 | LiStopConnection never runs before or during LiStartConnection |
| `SessionLifecycle.InterruptedExactlyWhenStarting` | src/moonlight/control/MoonlightSession.cpp:385-393 | LiInterruptConnection runs at most once, and, when every stop that began has finished, exactly if one of them found the session starting |
| `SessionLifecycle.OpenExactlyWhile` | src/moonlight/control/MoonlightSession.cpp:355-393 | after the owner left start(), the connection is open exactly while the state is Connected or a stopper stands before its LiStopConnection |
| `SessionLifecycle.AfterStopOpenIffStillClosing` | src/moonlight/control/MoonlightSession.cpp:385-393 | after a stop has finished and the owner has left, the connection is open if and only if another stopper has yet to close it |
| `SessionLifecycle.SingleStopperClosesEverything` | src/moonlight/control/MoonlightSession.cpp:385-393 | with one stopper nothing is left open |
| `SessionLifecycle.TwoStoppersCanLeaveItOpenForAMoment` | src/moonlight/control/MoonlightSession.cpp:385-393 | a concrete run with two stoppers in which one has finished and the connection is still open |
| `SdpBandwidth.VideoBandwidthKbps` | src/webrtc/SamsungSdp.cpp:274-299 | the line loop returns the first complete rate of the video section |
| `SdpSections.VideoRateIsRead` | src/webrtc/SamsungSdp.cpp:274-299 | in a description made of lines, the first bandwidth line of the video section that holds a 32-bit number is read, whatever malformed ones before it and whatever the sections before and after it say |
| `SdpSections.EveryRateIsReplaced` | tizen/app.js:1681-1683 | injecting into a description that has rates replaces every one of them and changes no other line |
| `SdpSections.OtherRatesAreIgnored` | src/webrtc/SamsungSdp.cpp:274-299 | without one in the video section nothing is read, however many the other sections have |
| `SdpSections.WritesBelowTheVideoLine` | tizen/app.js:1677-1701 | the TV writes its line right below the first m=video line, or below the connection line there, and changes nothing else |
| `SdpBandwidth.GatewayReadsInjectedRate` | tizen/app.js:1677-1701 | for every SDP without a bandwidth line and every positive int32 rate, the gateway reads the injected rate back if and only if its video section begins before the insertion point, and otherwise reads none |
| `SdpBandwidth.UsualSdpIsSeen` | src/webrtc/SamsungSdp.cpp:10-18 | that condition holds whenever the first m=video is followed by a space and its line is ended |
| `SdpBandwidth.LastInjectionWins` | tizen/app.js:1677-1701 | for every SDP text, injecting a rate over an injected one equals injecting it into the original |
| `SdpBandwidth.ReplacingTwice` | tizen/app.js:1681-1683 | replacing all rates twice equals replacing them once with the last rate |
| `SunshineEndpoint.IsValidSunshineHost` | src/moonlight/control/MoonlightIdentity.cpp:624-644 | the one-pass loop accepts exactly the strings of at most 253 characters whose dot-separated labels have 1 to 63 letters, digits or inner hyphens |
| `SunshineEndpoint.ParseSunshineEndpoint` | src/moonlight/control/MoonlightIdentity.cpp:590-617 | the parser returns an endpoint exactly when the text denotes it: a host on port 47989, or host, colon and at most five digits of value 1 to 65535 |
| `SunshineEndpoint.FormattedDenotes` | src/moonlight/control/MoonlightIdentity.cpp:590-617 | formatting any valid host and port gives a text that denotes that endpoint and no other |
| `Telemetry.ComputeDistribution` | src/telemetry/TelemetryLogger.cpp:49-81 | the samples are sorted in place and the result summarizes them: count, extremes, mean between them, nearest-rank percentiles in order |
| `Telemetry.RankIsNearest` | src/telemetry/TelemetryLogger.cpp:66-75 | the sample read for a percentile is the least one that at least that share of the samples does not exceed |
| `Telemetry.SortSorts` | src/telemetry/TelemetryLogger.cpp:54-54 | the sorted samples are an ascending permutation |
| `Artwork.ApplicationArtworkLoader.SetGatewayContext` | tizen/application-artwork.js:30-42 | a new context forgets everything, the same context changes nothing |
| `Artwork.ApplicationArtworkLoader.SetApplications` | tizen/application-artwork.js:44-60 | the loop over a new list and the pump after it |
| `Artwork.ApplicationArtworkLoader.PumpQueue` | tizen/application-artwork.js:69-83 | the queue is popped until an id worth asking for is in flight |
| `Artwork.ApplicationArtworkLoader.HandleResponse` | tizen/application-artwork.js:85-106 | an answer is accepted exactly for the id in flight; its whole effect |
| `Artwork.EveryRunIsSettled` | tizen/application-artwork.js:30-106 | in every reachable state: each current application is answered, pending or in flight; the queue has no duplicates and equals its id set; loaded and unavailable are disjoint; something is pending only while a request is in flight; no id is requested twice in a context; tiles were told the truth |
| `Artwork.AnswersMakeProgress` | tizen/application-artwork.js:85-106 | each accepted answer leaves strictly fewer applications outstanding, and its id is not requested again |
| `Artwork.NothingOutstandingMeansAllAnswered` | tizen/application-artwork.js:44-106 | with nothing outstanding every current application has its answer |
| `Artwork.AskedInListOrder` | tizen/application-artwork.js:44-106 | in a new context a list's artwork is asked for in the list's order, one at a time, each after the answer to the one before |
| `ArtworkData.EncodedIsAccepted` | tizen/application-artwork.js:7-17 | an image in base64 is accepted if and only if it is JPEG, PNG or WebP, not empty, and its text at most twelve mebibytes long |
| `ArtworkData.AcceptedIsBase64` | tizen/application-artwork.js:7-17 | and nothing but base64 text of whole groups is accepted |
| `ArtworkData.ArtworkReachesTheTile` | tizen/application-artwork.js:85-106 | an image that is answered is loaded as a data URL of its type that decodes to its bytes, and the tile is given it |
| `ArtworkData.OtherAnswersShowNothing` | tizen/application-artwork.js:85-106 | any other answer marks the application unavailable, and its tile is told so |
| `ArtworkConnection.AcceptedAnswersBelong` | tizen/app.js:618-730 | over every run of connects, closes, removals, lists and answers: an answer changes something if and only if its request was made on the current connection and is the one in flight, and then it was made for the current gateway |
| `ArtworkConnection.OldConnectionsAreDeaf` | tizen/app.js:2219-2236 | closing, connecting anew and removing the gateway make every answer and list of the connections so far change nothing |
| `ArtworkConnection.WhatIsAwaitedWasAsked` | tizen/app.js:4106-4115 | over every run, whatever is in flight was asked for, on some connection to the current gateway |
| `ArtworkConnection.StallsExactlyWhenOrphaned` | tizen/application-artwork.js:30-95 | over every run: no artwork is ever asked for again, whatever happens while the gateway stays the same, if and only if a request is in flight that was not made on the current connection |
| `ArtworkConnection.ReconnectingStallsExactlyWhileWaiting` | tizen/app.js:618-630 | over every run: connecting again to the same gateway stalls its artwork for good if and only if an answer was being waited for |

## Left out

- `GamepadClient.GamepadInputManager.BeginSession`: the `resume` at its end, which calls the modelled register and announce once more for each present gamepad; in `GamepadLink` its farewells are Unregister steps before the BeginSession step.
- `InputBridge.MoonlightInputBridge.HandleGamepadState`: the scroll calls for D-pad presses in mouse mode, which leave no state, and the arrival-rate diagnostics.
- `InputBridge.MoonlightInputBridge.HandleRumble`: the message queued for the TV; the magnitudes it carries are modelled.
- `InputBridge.MoonlightInputBridge.HandleTriggerRumble`: the message queued for the TV, likewise.
- `MediaBridge.MoonlightMediaBridge.VideoSetup`: whether format and dimensions match is one boolean, a comparison of stored values with the arguments.
- `MediaBridge.MoonlightMediaBridge.ProbeMain10`: the bit-depth and chroma figures kept for diagnostics, which nothing reads back.
- `MediaBridge.MoonlightMediaBridge.AfterSend`: frame diagnostics and latency figures, which decide nothing.
- `ArtworkConnection.ReconnectingStallsExactlyWhileWaiting`: a request whose send throws because the socket is not open is answered "unavailable" within the same call, so it is never in flight afterwards; such requests are not modelled.
- `MediaBridge.MoonlightMediaBridge.SubmitVideo`: flattening enters as its proved result (`PoolRuns.FlattenYieldsTheUnit`), since the lease never outlives the call; the bridge does not hold the pool object.
- `MediaBridge.MoonlightMediaBridge.RecordFrame`: reports the variance; the published jitter is its square root, or zero where it is not positive.
- `Telemetry.ComputeDistribution`: the library sort is its result, an ascending permutation written back in place, not an algorithm.
- JSON text and its errors: control and gamepad messages arrive parsed; sizes, ranges and sequence checks are modelled, malformed text is not.
- The status and rumble messages the bridge queues for the TV, and their delivery by the worker thread; only the worker's mouse motion is modelled.
- Numeric values of Limelight flags and API codes: buttons are modelled by name.
- Inter-arrival times and rates in the gamepad diagnostics: simple averages.
- Gamepad polling, vibration actuators, shortcuts and overlays on the TV.
- Rounding of doubles and floats: sticks, statistics and time comparisons are exact reals or integers.
- Memory orderings and races inside one call: calls are atomic, and for the session lifecycle each step is one atomic operation.
- Errors after a connection was established inside start(), such as a failing display query: the caller then sees an exception while the session stays Connected until it is stopped, which `SessionLifecycle` counts as having left start().
- Pool chains that hold more bytes than they declare: the code copies before it compares, so `Fits` is what it asks of its callers.
- Buffer capacity and reserve calls of the pool.
- Ogg checksums and granule positions: carried by the model's pages, not looked at by the code.
- Reading files from disk and their error messages; an empty file is rejected before the parsers see it.
- uint64 wrap of frame and sample counters in the media scheduler, which takes millions of years.
- Host and gateway latency sums, frame rates, log lines and bit-depth diagnostics of the media bridge; its audio side, which forwards packets with a running timestamp.
- The other SDP helpers (codec, HEVC format parameters, playout-delay extension, game-mode attribute): pattern searches without a counterpart to prove them against.
- Rotation and writing of telemetry files, and the text of its reports.
- Pairing, identity files, HTTP, display and network-adapter calls, Wake-on-LAN and the Windows service.
- Tables of supported video modes and their validation.
- Battery and touchpad calls, controller type detection and capability bits beyond the two rumble flags: single expressions without state.
