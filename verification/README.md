# A verified model of the lockstep, the input log and the small stores of the SDK

The model covers five parts of the SDK and what each of them is for.

**Host-relay lockstep** (`sdk/xbl_net.c:361-620`). `LockstepN.Session` is the C struct with its flat arrays and in-place
methods. Each method is proved against `RelayConsole.Console`, a console whose inputs are a table indexed by player and
frame. `RelayRun` puts up to 8 consoles, every datagram ever sent and every interleaving into one step system. The
network may lose, repeat and reorder; strangers may send junk; the players sample whatever they like. Each console runs
the loop documented at `sdk/xbl_net.h:106-116`: record once, pump, pump until the frame is there, read the inputs, next
frame; before it, any number of handshake rounds. One inductive invariant over consoles, packets and histories gives
`RelaySafety` (no desync, causality, skew, stability) and `RelayHandshake` (what the handshake can return while the
network grows). `RelayOutcomes` and `HandshakeOutcome` tell what a drain, a pump, a recording and a handshake come to from
the packets alone. `RelayLiveness` proves that fair matches finish. `RelayCopies` tells every single transmission apart and
counts the relays of a frame exactly. `RelayRecovery` says what loss does: with some of the copies sent so far lost for
good, a match can still be finished exactly when no guest lacks a frame the host is past and every copy of which to that
guest is lost. Nothing else a run has done rules out its end, as long as what was sent may arrive late.

**Two-player lockstep** (`sdk/xbl_net.c:156-359`). The same shape: `LockstepPair.Session`, `PairConsole`, `PairRun`,
`PairSafety`, `PairLiveness`. Here each datagram copy carries the frame of the pump that sent it, so that redundancy can
be counted exactly; `PairStall` shows how far a sender gets whose copies of one frame are all lost, for every delay and
frame.

**Input log** (`sdk/xblsdk.c:1079-1142`, read as `docs/rest-api.md:44-53` says). `InputLog.Log` is the growing buffer;
`InputLogText` is what it means; `Replay` joins it to the lockstep: a server that reads all logs replays the game every
console played, for any simulation.

**Base64** (`sdk/base64.c`). `Base64Spec` is RFC 4648 section 4 on bit strings, `Base64Text` says which texts are
encodings, and `Base64` holds the index loops.

**Accounts and achievements** (`sdk/xblsdk.c:413-539`, `sdk/xblsdk.c:795-1073`). `AccountStore.Store` with the parser
that cuts the load buffer up in place, `AccountList` as the bounded move-to-front list it implements;
`Achievements.Catalog` with the scanners of the server's answers, `Awards` as the record of who was toasted.

Where the code and its comments differ, the model follows the code:

- "delay+1 chances" (`sdk/xbl_net.h:100`, `sdk/xbl_net.c:311-316`) is not so for a frame f below the delay: it is sent
  from f + 1 pumped frames only (`PairSafety.ExactRedundancy`, and for every such frame a match in which it happens in
  `PairStall.WarmUpGetsFewerChances`).
- "delay+1 redundancy" of the relay (`sdk/xbl_net.c:542-544`) is not so either. A frame is relayed from the first host
  frame in whose window the host had it complete up to the frame itself, which is delay + 1 host frames exactly when it
  is past the warm-up and was complete as the host left frame f - delay (`RelayCopies.ExactRelays`). There are matches in
  which every frame is relayed from one host frame only (`RelayRecovery.RelayedOnce`).
- A host past a frame never relays it again, so a guest that lacks it and whose copies of it are all lost is stuck for
  good (`RelayRecovery.LostRelaysStallTheMatch`). Lost inputs of guests are never fatal
  (`RelayRecovery.LostInputsAreRecoverable`).
- A two-player sender whose copies of frame f are all lost can still leave frame f + delay; it stops at f + delay + 1
  (`PairSafety.LostCopiesStallTheMatch`), and it gets to each of the frames before that (`PairStall.StallBoundIsExact`).
- The two-player handshake keeps early inputs (`sdk/xbl_net.c:281`) only if its first drain gets them, and returns 1 for a
  packet heard back (`sdk/xbl_net.h:134-136`) only if one comes after that drain. `PairConsole.EarlyInputsExactly` and
  `PairConsole.HeardBackExactly` say exactly when each promise is kept, `PairConsole.DroppedInput` and
  `PairConsole.SwallowedHellos` give rounds that break them. Safety does not suffer (`PairRun.GreetIsARound`,
  `PairRun.StepKeeps`).
- A guest's handshake waits for frame 0 to be ready (`sdk/xbl_net.c:511-514`); no guest that has not pumped can see that
  (`RelayHandshake.GuestLeavesHandshakeUnlinked`).
- `base64Decode` never rejects malformed text, although `sdk/base64.h:11-13` says it does
  (`Base64Text.MalformedIsAccepted`); -1 means too little room and nothing else. Its header's promise holds exactly for the
  texts that are well formed once blanks are taken out, or do not fit (`Base64.DecodeBuffer`), and well formed is told from
  the text alone (`Base64Text.EncodingsAreWellFormed`).
- The account file loses what its line format cannot hold (`AccountText.RoundTrip`, `AccountList.ExactMeansStorable`).

## Model

| member | source | states |
|---|---|---|
| RelaySafety.NoDesync | sdk/xbl_net.h:94-101 | in every reachable state a console that has frame f reads, player by player, 0 below the delay and else the sample taken at f - delay, and 0 beyond the roster |
| RelaySafety.ConsolesAgree | sdk/xbl_net.h:160-178 | any two consoles that have a frame read equal input vectors for it |
| RelaySafety.PassedFramesAreHad | sdk/xbl_net.h:106-116 | whatever frame a console has left behind it still has |
| RelaySafety.LocalIsApplied | sdk/xbl_net.c:614-620 | a console's own log entry for a frame is the input everybody applies for it |
| RelaySafety.Causality | sdk/xbl_net.c:466-475 | a guest's ready frame proves that every player had fixed its input, that every guest had sent it and that the host had relayed exactly that vector |
| RelayHandshake.UnpumpedGuestIsUnlinked | sdk/xbl_net.c:510-515 | in every state that satisfies the invariant, a guest that has not pumped is not linked, and no datagrams it may be sent link it |
| RelayHandshake.HandshakeIsGreets | sdk/xbl_net.c:479-519 | the rounds a console meets while the others go on are one call of the handshake: same console, same verdict, and what it said is on the network |
| RelayHandshake.GuestLeavesHandshakeUnlinked | sdk/xbl_net.c:479-519 | from every reachable state, however long it runs and whatever the others send meanwhile, the handshake of a guest that has not pumped returns 0 |
| RelaySafety.BoundedSkew | sdk/xbl_net.c:535-595 | the frames of any two consoles, two guests included, differ by at most delay + 1 |
| RelaySafety.HostRelaysBeforePassing | sdk/xbl_net.c:454-465 | the host has the address of every guest it has an input from, and has relayed every frame it can leave to all guests |
| RelaySafety.CapacityIsEnough | sdk/xbl_net.c:396-404 | the allocated capacity never drops a scheduled frame and no packet of a match is out of range |
| RelaySafety.StepGrows | sdk/xbl_net.c:444-477 | no step makes a console forget an input, a ready frame or an address, and packets and samples only accumulate |
| RelaySafety.Stability | sdk/xbl_net.c:589-612 | once a console has a frame it has it in every continuation, and late or repeated packets never change its inputs |
| RelayRun.StepKeeps | sdk/xbl_net.c:521-587 | every record, pump, advance and handshake round of any console preserves the invariant of consoles, packets and progress |
| RelayRun.HostPumpKeeps | sdk/xbl_net.c:541-567 | the host's absorb-then-relay preserves it |
| RelayRun.GuestPumpKeeps | sdk/xbl_net.c:568-586 | a guest's send-then-absorb preserves it, although the aggregate overwrites the guest's own slot |
| RelayRun.RecordKeeps | sdk/xbl_net.c:521-533 | a sample only ever fixes a slot nobody has seen yet |
| RelayRun.ReachableIsOk | sdk/xbl_net.c:382-587 | the invariant holds in every state of every run |
| RelayRun.InitialIsOk | sdk/xbl_net.c:405-413 | freshly initialised consoles satisfy it, warm-up marks included |
| RelayRun.RelayIsOk | sdk/xbl_net.c:546-566 | every complete frame of the window goes out to all N - 1 guests, with everyone's final input, and nothing else goes out |
| RelayRun.RelayContents | sdk/xbl_net.c:546-550 | a datagram is relayed exactly when it is a copy of some complete frame of the window |
| RelayRun.BroadcastContents | sdk/xbl_net.c:552-566 | the copies of a frame are exactly one aggregate for each guest that was heard, to the address it was heard from |
| RelayRun.SendWindowContents | sdk/xbl_net.c:570-584 | a guest sends exactly its own inputs for the frames of the window within capacity |
| RelayRun.DrainKeeps | sdk/xbl_net.c:444-477 | draining any deliverable packets in any order and number keeps a console's slots final |
| RelayRun.DrainMarks | sdk/xbl_net.c:454-474 | every drained input or aggregate leaves its mark, and nothing is unlearnt |
| RelayLiveness.NoDeadlock | sdk/xbl_net.h:96-99 | in every reachable unfinished state in which everyone has pumped and what was sent has got through, a console at the lowest frame can advance |
| RelayLiveness.MatchFinishes | sdk/xbl_net.h:94-101 | in every infinite run without suspended consoles and without packets that lose all their copies, a time comes when every console has been through all frames |
| RelayLiveness.FairMatchIsPlayedAlike | sdk/xbl_net.h:94-116 | and then all consoles hold, for every frame, the same prescribed input vector |
| RelayCopies.NextKeeps | sdk/xbl_net.c:535-587 | every step keeps the account of single transmissions: what was sent when, what the host had as it left each frame, and that it relayed from a frame exactly what its pump there left complete |
| RelayCopies.HostSends | sdk/xbl_net.c:546-567 | a pump of the host sends aggregates of exactly the frames of its window that are complete after it, to every guest |
| RelayCopies.ReachableIsTraced | sdk/xbl_net.c:382-587 | every reachable state is the state of a trace of transmissions |
| RelayCopies.TracedIsReachable | sdk/xbl_net.c:382-587 | and every trace is a run |
| RelayCopies.ExactRelays | sdk/xbl_net.c:542-567 | a frame the host has passed went to each guest from exactly the host frames from the first in whose window it was complete up to itself; delay + 1 of them if and only if it is past the warm-up and was complete as the host left frame f - delay |
| RelayRecovery.RelayedOnce | sdk/xbl_net.c:542-544 | for every configuration there is a finished match in which every frame went to every guest from one host frame only |
| RelayRecovery.LostRelaysStallTheMatch | sdk/xbl_net.c:541-550 | once the host is past a frame a guest lacks and all its copies to that guest are lost, in all continuations that guest stays at or below it, everyone within delay + 1 of it, and the match is never finished |
| RelayRecovery.AnyoneCanBeDoomed | sdk/xbl_net.c:541-550 | that situation is reachable for every guest and every frame |
| RelayRecovery.RecoverableUnlessDoomed | sdk/xbl_net.c:535-595 | with any of the copies sent so far lost for good, some continuation without them finishes the match if and only if nobody is in that situation |
| RelayRecovery.LostInputsAreRecoverable | sdk/xbl_net.c:568-584 | if only inputs and hellos are lost the match can be finished: a guest cannot pass a frame before the host has its input, and sends it again |
| RelayRecovery.CanStillFinish | sdk/xbl_net.c:535-595 | from every reachable state some continuation finishes the match, as long as nothing sent is ruled out from arriving late |
| RelayRecovery.FairMatchExists | sdk/xbl_net.h:106-116 | every reachable state lies on a fair run, so the fairness assumption excludes no state |
| LockstepN.IndexInBounds | sdk/xbl_net.c:377-380 | the flat index of a player and frame is inside the array |
| LockstepN.IndexInjective | sdk/xbl_net.c:377-380 | no two slots share a cell |
| LockstepN.TableUpdate | sdk/xbl_net.c:463-463 | writing one cell of the flat array changes exactly one entry of the table |
| LockstepN.IndexLayout | sdk/xbl_net.c:377-380 | players lie one after the other, frame after frame, from cell 0 on |
| LockstepN.Session.Init | sdk/xbl_net.c:382-414 | rejects a negative delay or no frames without a change, no memory with a session of capacity 0; else the player count is the one given, at least 2 and at most 8, the role the one given, at least 0 and below the player count; with settings in range the session stands for the console of that role in the initial state of a run |
| LockstepN.Session.HostComplete | sdk/xbl_net.c:431-442 | true exactly when the frame is in range and every player's slot is known |
| LockstepN.Session.Drain | sdk/xbl_net.c:445-477 | the arrays after draining stand for the table after receiving each datagram in turn, which `RelayOutcomes` describes |
| LockstepN.Session.AbsorbAggregate | sdk/xbl_net.c:467-474 | the first min(n, playerCount) slots of the frame are overwritten, the frame is ready, nothing else changes |
| LockstepN.Session.Handshake | sdk/xbl_net.c:479-519 | verdict, hellos and state are those of the rounds until the first that links, which `HandshakeOutcome` describes; the clock is the number of rounds |
| LockstepN.Session.RecordLocal | sdk/xbl_net.c:521-533 | the console after recording, frames out of range ignored |
| LockstepN.Session.Broadcast | sdk/xbl_net.c:552-566 | one aggregate per guest heard from, to that guest's address, with every player's input |
| LockstepN.Session.HostRelay | sdk/xbl_net.c:546-567 | the aggregates of exactly the complete frames of the window, in order, and those frames marked |
| LockstepN.Session.SendWindow | sdk/xbl_net.c:570-584 | the guest's inputs for the window, newest first |
| LockstepN.Session.Pump | sdk/xbl_net.c:535-587 | state and sent datagrams are those of the console's pump |
| LockstepN.Session.Have | sdk/xbl_net.c:589-595 | on the host exactly when the frame is in range and every player's slot is known, on a guest exactly when it is in range and marked ready |
| LockstepN.Session.Inputs | sdk/xbl_net.c:597-612 | exactly the first max cells are written, none for a negative max: slot k of the frame for each player k of the roster, 0 beyond it or out of range |
| LockstepN.Session.Local | sdk/xbl_net.c:614-620 | the slot of the own role, 0 out of range |
| LockstepN.Session.IsLinked | sdk/xbl_net.c:504-515 | on the host: exactly when all of guests 1 .. playerCount - 1 have an address; on a guest: exactly when frame 0 is ready |
| HandshakeOutcome.HandshakeVerdict | sdk/xbl_net.c:479-519 | the handshake returns 1 if and only if by the end of some round every guest had an address before or was named by a packet, hello or input, of that round or an earlier one (on a guest: frame 0 was relayed); it meets the rounds up to the first such, and in each a guest says one hello to address 0, the host one to each guest heard before that round, in roster order, where it was last heard |
| HandshakeOutcome.HandshakeAddresses | sdk/xbl_net.c:479-519 | afterwards the host has the address of exactly the guests it had or heard in a round it met, each the source of the last packet that names the guest |
| RelayOutcomes.HostLearnsAddresses | sdk/xbl_net.c:454-460 | after a drain a guest has an address if and only if it had one or some packet of any kind names it, and then that of the last such |
| RelayOutcomes.HostTakesInputs | sdk/xbl_net.c:461-465 | the host knows a guest's slot if and only if it did or an input for it was drained, and holds the state of the last one; no frame becomes ready |
| RelayOutcomes.GuestTakesFrames | sdk/xbl_net.c:466-475 | a guest has a frame ready if and only if it had or an aggregate of it was drained; each slot holds the state of the last aggregate long enough to have one; a guest learns no address |
| RelayOutcomes.RecordWrites | sdk/xbl_net.c:521-533 | exactly the own slot delay frames on is written, where there is room, and known from then on to the host alone |
| RelayOutcomes.GuestSendsFirst | sdk/xbl_net.c:568-586 | what a guest sends in a pump does not depend on what it absorbs there |
| RelayOutcomes.HostAbsorbsFirst | sdk/xbl_net.c:541-567 | the host relays after absorbing, and marks a frame of the window exactly when every player's input for it is in hand by then |
| RelayOutcomes.WindowIsNewestFirst | sdk/xbl_net.c:570-584 | the j-th datagram of a window carries the own input for frame sched - j |
| RelayOutcomes.BroadcastIsInOrder | sdk/xbl_net.c:552-566 | one aggregate to each guest heard, in roster order, each with every player's input and 0 beyond the roster |
| RelayOutcomes.RelayIsOldestFirst | sdk/xbl_net.c:546-549 | frames are relayed in ascending order |
| RelayOutcomes.FreshConsole | sdk/xbl_net.c:382-414 | a fresh session has capacity maxFrames + delay + 1, only neutral inputs, knows exactly its own frames below the delay if it is the host, and has heard nobody |
| PairSafety.NoDesync | sdk/xbl_net.h:92-104 | for every frame a console has passed or is about to leave, its inputs are the host's and the guest's prescribed inputs, in that order, on both sides |
| PairSafety.LocalIsApplied | sdk/xbl_net.c:336-342 | a console's own log entry for a scheduled frame is the input it contributed, and its share of the pair both sides apply once the frame is passed |
| PairSafety.BoundedSkew | sdk/xbl_net.c:295-334 | neither side runs more than delay + 1 frames ahead |
| PairSafety.ExactRedundancy | sdk/xbl_net.c:306-326 | a console past f has sent its input for f from exactly the pumps of frames max(0, f - delay) to f, min(f, delay) + 1 of them |
| PairSafety.LostCopiesStallTheMatch | sdk/xbl_net.c:311-326 | if all those copies are lost, in all continuations the receiver never passes f and the sender never f + delay + 1 |
| PairStall.StallBoundIsExact | sdk/xbl_net.c:311-326 | for every delay, frame and length of a match, a sender past f whose copies of it are all lost can get to frame m if and only if m is one of f + 1 .. f + delay + 1 within the match |
| PairStall.WarmUpGetsFewerChances | sdk/xbl_net.c:311-316 | for every frame below the delay a match in which it was sent from f + 1 pumped frames only |
| PairSafety.NoDeadlock | sdk/xbl_net.h:96-101 | once a copy of each needed input got through, the console at the lowest frame can advance |
| PairLiveness.Stability | sdk/xbl_net.c:328-359 | once a console has a frame it always will, and where its own input is fixed too the pair it reads never changes |
| PairLiveness.MatchFinishes | sdk/xbl_net.h:92-101 | in every infinite run without suspended consoles and without inputs that lose all their copies, both consoles come to the end |
| PairLiveness.FairMatchExists | sdk/xbl_net.h:106-116 | such runs exist for every delay and length |
| PairSafety.RelayWithTwoPlayersAgrees | sdk/xbl_net.h:176-178 | on the same samples the relay with two players delivers the same pair, whatever either network did |
| PairRun.StepKeeps | sdk/xbl_net.c:271-326 | every step of either console, the lossy handshake included, preserves the two-player invariant |
| PairRun.PumpSends | sdk/xbl_net.c:317-324 | a pump sends the final input of every frame of its window, tagged with its own frame, and nothing else |
| PairRun.DrainNeedsACopy | sdk/xbl_net.c:257-269 | a console gets an input for a frame only from a datagram of that frame |
| PairRun.ReachableIsOk | sdk/xbl_net.c:222-326 | it holds in every state of every run |
| PairConsole.HandshakeOutcome | sdk/xbl_net.c:271-293 | success exactly when some second loop hears a packet, one hello for each round up to the first such, and afterwards exactly the inputs there were or a first drain of a met round kept |
| PairConsole.HeardBackExactly | sdk/xbl_net.h:134-136 | returning 1 exactly when a packet was heard back holds if and only if one came after some first drain, or none came in a first drain |
| PairConsole.SwallowedHellos | sdk/xbl_net.h:134-136 | hellos that all come in first drains go unnoticed, however many rounds there are |
| PairConsole.EarlyInputsExactly | sdk/xbl_net.c:281-289 | keeping the early inputs of a frame holds if and only if one was there or kept by a first drain, or none came after one |
| PairConsole.DroppedInput | sdk/xbl_net.c:281-289 | an input that comes after the first drain makes the handshake succeed and is gone |
| PairRun.GreetIsARound | sdk/xbl_net.c:278-291 | the handshake steps of a run are such rounds: same console, same verdict, one hello each |
| PairConsole.DrainTakesLast | sdk/xbl_net.c:257-269 | the peer's input for a frame is that of the last datagram for it, and the old one if there was none |
| PairConsole.RecordWrites | sdk/xbl_net.c:295-304 | exactly the own input delay frames on is written, where there is room |
| PairConsole.WindowIsNewestFirst | sdk/xbl_net.c:317-324 | the j-th datagram of a window carries the own input for frame sched - j |
| PairConsole.FreshConsole | sdk/xbl_net.c:222-241 | a fresh session has capacity maxFrames + delay + 1, only neutral inputs and none of the peer's |
| LockstepPair.Session.Init | sdk/xbl_net.c:222-241 | rejects what the source rejects, no memory with a session of capacity 0; else a fresh console of role 0 or 1 |
| LockstepPair.Session.Drain | sdk/xbl_net.c:257-269 | the arrays after draining stand for the console after receiving each datagram in turn |
| LockstepPair.Session.Handshake | sdk/xbl_net.c:271-293 | verdict, hellos and state are those of the rounds, which `PairConsole.HandshakeOutcome` describes |
| LockstepPair.Session.RecordLocal | sdk/xbl_net.c:295-304 | the console after recording |
| LockstepPair.Session.Pump | sdk/xbl_net.c:306-326 | the datagrams of the window as it was before the drain, and the drained console |
| LockstepPair.Session.Have | sdk/xbl_net.c:328-334 | true exactly when the frame is in range and the peer's input for it has arrived |
| LockstepPair.Session.Local | sdk/xbl_net.c:336-342 | the own input of that frame, 0 out of range |
| LockstepPair.Session.Inputs | sdk/xbl_net.c:344-359 | the pair in host, guest order whichever side asks |
| Replay.ServerReadsWhatWasApplied | docs/rest-api.md:44-53 | for every player and passed frame, the server reads out of that player's log the input every console applied, masked to 6 bits |
| Replay.ServerVectorIsApplied | sdk/xbl_net.h:176-178 | within the mask, the vectors read from all logs are the vectors of every console |
| Replay.ReplayReproducesTheGame | sdk/xbl_net.h:102-104 | any deterministic simulation replayed from the logs ends in the state it had on every console |
| InputLogText.RoundTrip | docs/rest-api.md:44-53 | every text printed from entries with non-negative frames and states parses back to those entries |
| InputLogText.RecordingIsWellFormed | docs/rest-api.md:51-53 | calls at ascending frames give strictly ascending frames, states in 0..63 and no two equal neighbours |
| InputLogText.LogMeansWhatWasSaid | docs/rest-api.md:46-49 | the state in effect at any frame is what the caller last said at or before it, although unchanged states are left out |
| InputLogText.LogOfEveryFrame | sdk/xblsdk.c:1088-1123 | a log of every frame, printed and parsed back, gives each frame its masked state |
| InputLogText.EntriesAre | sdk/xblsdk.c:1088-1123 | the log has one entry for the first call and for each whose masked state differs from that of the call before, in order, and no other |
| InputLogText.MaskDropsHighBits | sdk/xblsdk.c:1096-1096 | the low six bits of a state stay and the others do not matter |
| InputLogText.DocumentedLog | docs/rest-api.md:46-49 | the documentation's example is printed as it stands there |
| Decimal.DecimalDigits | sdk/xblsdk.c:1101-1101 | digits are written in base ten, the last one last, after a minus sign for a negative number |
| InputLog.PieceFits | sdk/xblsdk.c:1100-1104 | no 32-bit frame number makes a printed piece too long for its 32 bytes |
| InputLog.Log.NewCapacity | sdk/xblsdk.c:1106-1109 | the growth loop ends at a capacity 256 * 2^k that suffices and is at most twice what is needed |
| InputLog.Log.EnsureRoom | sdk/xblsdk.c:1105-1116 | room is made, or the log is unchanged |
| InputLog.Log.Record | sdk/xblsdk.c:1088-1123 | the NUL-terminated text is the change-only encoding of all calls; a failed allocation changes nothing, and fails only when room was needed |
| Base64Spec.RoundTrip | sdk/base64.c:7-90 | decoding an encoding gives back the bytes |
| Base64Spec.EncodeIsInjective | sdk/base64.c:7-43 | different byte strings have different encodings |
| Base64Spec.EncodeShape | sdk/base64.c:7-43 | 4 * ceil(n / 3) characters: alphabet characters, then the padding of RFC 4648 section 4 and nothing else |
| Base64Spec.JunkIsIgnored | sdk/base64.c:63-71 | characters outside the alphabet may be put anywhere without changing the decoding |
| Base64Spec.DecodeLength | sdk/base64.c:81-89 | k alphabet characters decode to floor(3k / 4) bytes |
| Base64Spec.AlphabetPosition | sdk/base64.c:5-5 | each of the 64 characters is found at its own value |
| Base64Spec.CharacterPosition | sdk/base64.c:45-53 | the decoder's ranges hold exactly the characters of the alphabet, and its value for one is where the alphabet has it |
| Base64Spec.Table | sdk/base64.c:5-5 | the 64 characters value by value, as table 1 of RFC 4648 has them: A-Z, a-z, 0-9, + for 62, / for 63 |
| Base64Spec.SextetOf | sdk/base64.c:45-53 | a character yields a group exactly when it is in the alphabet, and the group is its place there |
| Base64Text.EncodingsAreWellFormed | sdk/base64.c:7-43 | a text is the encoding of something if and only if it is whole groups of four alphabet characters, at most two of the last replaced by '=', with no spare bit set |
| Base64Text.DecodesWhatItEncodes | sdk/base64.h:11-13 | a text that is well formed once blanks are taken out decodes to the bytes it encodes |
| Base64Text.BlanksCarryNothing | sdk/base64.c:65-67 | blanks change no group of the text |
| Base64Text.MalformedIsAccepted | sdk/base64.h:11-13 | a text that is not well formed and fits, which the decoder therefore accepts |
| Base64.EncodeBuffer | sdk/base64.c:7-43 | the returned buffer is exactly the encoding and a NUL, which `Base64.EncodesByBlocks` tells in numbers; null exactly without memory |
| Base64.EncodesByBlocks | sdk/base64.c:7-43 | three bytes as a number of 24 bits are the alphabet's characters at its four six-bit digits, highest first; one or two bytes left over are filled with zero bits and padded by two or one = |
| Base64.EncodeTail | sdk/base64.c:26-39 | the one or two bytes left over become their padded block |
| Base64.B64Val | sdk/base64.c:45-53 | -1 exactly for characters that are not in the alphabet, else a place where the alphabet has the character; 62 for + and 63 for / |
| Base64.DecodeBuffer | sdk/base64.c:55-90 | -1 exactly when floor(3k / 4) exceeds the capacity, so the header's promise is kept exactly for texts that are well formed or do not fit; else the bytes of the bit string, their number, and no byte beyond them touched |
| Base64.DecodesFourGroups | sdk/base64.c:72-78 | four characters of the alphabet, junk between them or not, are a number of 24 bits, decoded to its three bytes, highest first |
| Base64.DecodesThreeGroups | sdk/base64.c:81-88 | three characters left over are the upper 16 of 18 bits |
| Base64.DecodesFewGroups | sdk/base64.c:81-88 | two left over are the upper 8 of 12 bits, and fewer are nothing |
| AccountText.RoundTrip | sdk/xblsdk.c:413-487 | a written list is loaded back unchanged if and only if no name holds a tab or newline, no key a newline, and no key ends in a carriage return |
| AccountText.FileFits | sdk/xblsdk.c:448-451 | the largest file the store writes fits the load buffer |
| AccountText.FileFormat | sdk/xblsdk.c:413-433 | the file is one line for each filled account: name, tab, key, newline |
| AccountText.AnyLine | sdk/xblsdk.c:460-483 | the first tab parts name from key, one carriage return at the end is dropped, names are cut to 127 and keys to 255 characters, and a line without a tab or with an empty part holds nothing |
| AccountStore.ParseBuffer | sdk/xblsdk.c:460-483 | the destructive loop leaves in the output exactly the first max accounts of the text that was in the buffer, and the rest of the output alone |
| AccountStore.ParseLineInPlace | sdk/xblsdk.c:467-481 | cutting one line up in place yields its account, or none without a tab or with an empty part, and touches no later line |
| AccountStore.Store.Write | sdk/xblsdk.c:413-433 | the file becomes one line per filled entry, as far as the disk takes them; the code tells whether it took all, and a file that cannot be opened is left alone |
| AccountStore.Store.Load | sdk/xblsdk.c:435-487 | return code, count and accounts for every state of the file, readable or not, the first max entries at most |
| AccountStore.Store.Remember | sdk/xblsdk.c:489-512 | the session is put in front and its older copies are gone, the file cut where the disk is full; an unreadable file counts as empty; an empty session or an uninitialised store changes nothing |
| AccountStore.Store.Forget | sdk/xblsdk.c:514-539 | the name is gone, and the file with its last entry if it can be deleted; nothing is rewritten when the name was not there; codes as the source returns them |
| AccountList.StoreIsAList | sdk/xblsdk.c:435-539 | through every sequence of remembers and forgets, what loads is what a bounded move-to-front list holds |
| AccountList.StoreIsMostRecentlyUsed | sdk/xblsdk.c:489-512 | after any remembers, the 8 most recently remembered names, newest first, each with its latest key |
| AccountList.TruncationCommutes | sdk/xblsdk.c:504-510 | cutting the list to 8 before a remember loses nothing the remember needs |
| AccountList.WithoutIs | sdk/xblsdk.c:527-531 | what is kept are exactly the accounts of other names, in order |
| AccountList.NewestIs | sdk/xblsdk.c:489-512 | the most recently remembered are exactly the sessions no later one of the same name replaces, newest first |
| AccountList.LoadedIs | sdk/xblsdk.c:448-458 | of a file the first 3119 characters are read, up to the first NUL |
| AccountList.ExactMeansStorable | sdk/xblsdk.c:413-512 | for sessions of any text: the store is that exact cache after every remember if and only if every session is storable in the line format |
| Awards.ToastedOnce | sdk/xblsdk.c:833-862 | an achievement is awarded exactly when it was named, and toasted once if its first mark was an award, otherwise never |
| Awards.SilentStaysSilent | sdk/xblsdk.c:851-860 | one silent mark before any award, and nothing that follows toasts it |
| Awards.ShownGrows | sdk/xblsdk.c:833-843 | toasts are only added, and only for catalog entries |
| Awards.ToastsFollowAwards | sdk/xblsdk.c:833-843 | every new toast is caused by an award of its own, and toasts come in the order of those awards |
| AwardText.SyncFindsUnlocked | sdk/xblsdk.c:1036-1073 | on a catalog in the documented shape the scan finds exactly the ids whose own flag is true, in order |
| AwardText.ExampleIsFound | docs/rest-api.md:152-160 | the documentation's own example has that shape, and its unlocked id is found |
| AwardText.ReportFindsNew | sdk/xblsdk.c:901-933 | on an answer in the documented shape the ids of the granted array, in order |
| AwardText.ReportFindsAll | sdk/xblsdk.c:864-896 | and all quoted ids of the full array, in order |
| AwardText.CatalogKeys | docs/rest-api.md:152-160 | the keys the scan of a catalog looks for are those of the documentation |
| AwardText.ReportKeys | docs/rest-api.md:139-145 | and so are those of a report's answer |
| ReportExample.AnswerIsFound | docs/rest-api.md:139-145 | the documentation's own answer has the documented shape; its granted id is found, and all four it lists, that one among them |
| Achievements.SyncKeepsQuiet | sdk/xblsdk.h:566-573 | a sync takes exactly the known unlocked ids as awarded, and none of them is toasted from then on until the flags are cleared, unless a mark before the sync named it |
| Achievements.SyncEffect | sdk/xblsdk.c:1036-1073 | on a catalog in the documented shape an achievement is awarded afterwards if and only if it was or its own flag is true, and no toast is shown for it |
| Achievements.ReportEffect | sdk/xblsdk.c:1001-1004 | on an answer in the documented shape an achievement is awarded afterwards if and only if it was or stands in the granted or the full array, and one toast is shown for it if and only if there is a callback, it was not awarded and it stands in the granted array, in the full one too or not |
| Achievements.FindInside | sdk/xblsdk.c:916-919 | searching the whole answer and giving up past the closing bracket finds what searching the array alone finds |
| Achievements.ReadId | sdk/xblsdk.c:1052-1057 | the id up to its quote, cut to what fits |
| Achievements.ReadFlag | sdk/xblsdk.c:1058-1069 | true exactly when a true flag stands before the next id |
| Achievements.Catalog.Init | sdk/xblsdk.c:812-826 | at most 32 entries are taken, no flag is set and no toast counted; a bad catalog changes nothing |
| Achievements.Catalog.Reset | sdk/xblsdk.c:828-831 | no flag is set and the history starts anew, the catalog stays |
| Achievements.Catalog.AchIndex | sdk/xblsdk.c:799-810 | the first entry with that id, or -1 |
| Achievements.Catalog.AwardId | sdk/xblsdk.c:833-843 | flags and toasts are those of one award more |
| Achievements.Catalog.MarkSilent | sdk/xblsdk.c:854-860 | flags are those of one silent mark more, and no toast |
| Achievements.Catalog.WasAwarded | sdk/xblsdk.c:845-849 | true exactly when some mark since the last clearing named the id |
| Achievements.Catalog.Sync | sdk/xblsdk.c:1012-1073 | a documented catalog awards exactly the ids whose own flag is true and toasts none (`Achievements.SyncEffect`), any other answer marks the scanned ids silently; every failure changes nothing and has its code |
| Achievements.Catalog.Report | sdk/xblsdk.c:935-1010 | a documented answer awards exactly the granted and the listed ids and toasts exactly the granted ones not awarded before (`Achievements.ReportEffect`), any other awards and marks what is scanned; every failure changes nothing |

## Left out

- Sockets, address resolution, peer connection, and `Sleep`: sending adds a datagram to the network, draining takes some that were sent. The address of console p is p, so an endpoint that changes during a match is not modelled.
- Clocks: a handshake is given the rounds it has time for instead of a timeout.
- Packet layout, and forged packets that carry the right magic number: packets are values, and only consoles of the match speak the protocol.
- 32-bit overflow of frame + delay and of the capacity arithmetic in the lockstep, the base64 lengths and the log buffer: these are unbounded integers. Inputs are 16-bit values, and frame numbers of the input log are 32-bit.
- NULL arguments, and the free functions: a method is always called on an object.
- The abort inside the waiting loop (`sdk/xbl_net.h:112`): a player who gives up is a console that takes no further step.
- Allocation is a parameter that says whether memory is there. `xbl_lockstep_n_init` may fail after some of its arrays were allocated; the model knows all or none.
- Shifts and masks are written as divisions and remainders.
- The server: its log reader is taken from `docs/rest-api.md:44-53`, its simulation is an arbitrary function; frame and entry limits of particular games are not part of this model.
- The account file has no other writers, and making its directory is left out. `AccountList` speaks of disks on which nothing fails.
- Achievements.Catalog.Report: the hash and signature of the request, the memory for its body and the message text are not part of this model, so neither are the error codes they can return; HTTP is a value that says unreachable, refused or answered with a body.
- A toast callback does not call back into the SDK.
- AwardText.SyncFindsUnlocked: only for answers in the documented shape, with the id first, ids of 1 to 47 characters without quotes, and no look-alike keys; on other text the scan is modelled (`Achievements.Catalog.Sync`) but nothing is promised about it, because the scanner is no JSON parser.
- AwardText.ReportFindsNew: likewise only for answers in the documented shape, and so is `AwardText.ReportFindsAll`; on other text the scans are modelled (`Achievements.Catalog.Report`) but nothing is promised about them.
- Devices, friends, lobbies, presence, save files, hashing and the other JSON scanners: they would add easy members or depend on code that is not in these files.
