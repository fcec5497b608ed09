# Proofs about the OpenLCB CAN stack

This project models the Arduino implementation of OpenLCB in `libraries/OpenLCB` and two handlers of the
`Io_16P_16C_default` sketch, and proves what its protocols promise. Everything that the library changes in place is a class
whose methods are proved against specifications on values; the properties of whole runs are lemmas about those
specifications. `dafny verify dfyconfig.toml` checks it all.

- **Alias allocation** (`AliasGenerator`, `AliasModel`, `AliasHelper`, `AliasRuns`, `AliasHistory`, `AliasProgress`,
  `AliasAnswers`): the helper's slot table, its round robin, its reaction to every frame, its alias generator. A *run* is
  any sequence of turns, delivered frames, verify requests, allocations and releases on a table of any size. True time is
  unbounded; the code sees it modulo 2^32. Whether the bus accepts a frame is an input of each turn. The frame a turn sends is delivered to all slots
  before the next action.
- **Frames** (`Bits`, `FrameBits`, `CanFrame`, `CanBuffer`, `BusFrames`, `NodeIds`): the 29-bit identifier with the
  header's masks and shifts on machine words, the builders and readers, and what a receiver can tell from a frame.
- **The link** (`CanLink`, `AliasCache`, `HandlerList`): the one receive buffer through which own frames come back, the alias
  cache against the network's true bindings, the chain of handlers.
- **Datagrams** (`DatagramModel`, `DatagramHandler`, `DatagramTransfer`, `DatagramReassembly`, `DatagramLedger`,
  `DatagramReplies`): both ends of the protocol: fragments, assembly, replies, resending, timeouts.
- **Events** (`EventModel`, `EventHandler`, `EventQueue`, `EventRequests`): flag bits and a cursor used as a queue of messages.
- **Numbers and storage** (`Float16`, `SnipReply`, `InfoHandler`, `EventStore`): binary16 conversion, the reply that is cut
  into frames over many calls, event IDs and configuration memory in EEPROM (`Eeproms`).

Words, aliases and bytes are natural numbers; shifts, masks and bitwise operators are recursive functions on them (`Bits`),
so that a carry that is or-ed in, a shift that loses bits or a counter that wraps is one in the model too.

Objects of the library are static, so a field that nothing sets starts at 0. Inputs stand for what the library gets from
outside: the clock (read once per call), the bus's willingness to take a frame, the verdict of `processDatagram`, the
answer of `consume`, the EEPROM as an array of 4096 bytes. `while(!sendMessage());` is an accepted send.

Where the code and what is written about it differ, the model follows the code:

- A slot's generator adds its carry with a bitwise or; `AliasGenerator.StepArithmetic` says when
  that is a sum, and `AliasGenerator.CarryIsLost` gives words for which it is not.
- `sendCID`'s comment speaks of ordinals 0 to 3 that become F to C; the code passes 1 to 4, which become 7 to 4.
- `sendMessage`'s comment holds that the receive buffer is not clobbered; `CanLink.LoopbackIsFaithful` says exactly when. The
  alias helper and a node's handler both send in one call of `update()`, so it can be, and what one lost frame can do is shown
  by `AliasRuns.OneLostFrameCollides`.
- A CID that finds a slot in INIT_COMPLETE makes it skip Initialization Complete, and nothing else does
  (`AliasProgress.MissedExactly`).
- A slot that is to send RID again or its Verified NodeID does not look at foreign frames under its alias until it has
  (`AliasAnswers.ForeignFrames`).
- A verify request overrides a RID that is still to be sent again (`AliasAnswers.VerifyIsAnswered`).
- An answer with the code 0xFFFF that the bus refuses is never sent, because that code marks the empty queue
  (`DatagramReplies.VerdictIsAnswered`).
- While no question is pending a Verified NodeID of all zeros counts as the answer to one; it is stored only when no entry is
  empty (`AliasCache.ZeroNidIsStored`).
- An ack does not clear the transmit flag, so an early one lets a freed datagram go on
  (`DatagramLedger.OnlyTimelyBalances`).
- A teaching message that the bus refuses is not sent again (`EventQueue.RefusedUpdate`).
- A protocol answer can be overwritten before it is sent (`SnipReply.WaitingAnswerIsLost`).
- Configuration addresses are meant to be those of the EEPROM; only those at least 4 modulo 8 are
  (`EventStore.LocateIsRight`), and a range that runs over the end is cut four bytes shorter than need be
  (`EventStore.GrantedFits`).

All lemmas carry `{:induction false}`: every induction is written out.

## Model

| member | source | states |
|---|---|---|
| AliasRuns.AliasesStayExclusive | libraries/OpenLCB/OLCB_CAN_Alias_Helper.cpp:9-197 | Safety over whole runs: in every run of turns, frames, requests, allocations and releases, in any order, in which the bus accepts what slots past RID send, no two slots past RID ever have the same alias |
| AliasRuns.RunsDefer | libraries/OpenLCB/OLCB_CAN_Alias_Helper.cpp:9-197 | The invariant behind it: a slot that shares the alias of one past RID has sent at most CID 1, and the holder has its turn, with a frame that knocks the other out, before that slot's next |
| AliasRuns.SpeakerDefers | libraries/OpenLCB/OLCB_CAN_Alias_Helper.cpp:98-193 | One turn: the slot that speaks still gives way to every holder of its alias, whose turn comes before its own next one |
| AliasRuns.OthersDeferToSpeaker | libraries/OpenLCB/OLCB_CAN_Alias_Helper.cpp:21-72 | One turn: after the speaker's own frame has come back, every slot that shares the speaker's alias gives way to it |
| AliasRuns.FrameSettles | libraries/OpenLCB/OLCB_CAN_Alias_Helper.cpp:36-45 | A frame of a slot past RID (or its RID) sends every other slot that is negotiating the same alias back to a new one |
| AliasRuns.ChallengeWakes | libraries/OpenLCB/OLCB_CAN_Alias_Helper.cpp:56-64 | A first CID sends every settled holder of that alias back to RID; a holder past RID that is not settled is left as it is; either way the holder speaks on its next turn |
| AliasRuns.OneLostFrameCollides | libraries/OpenLCB/OLCB_CAN_Alias_Helper.cpp:36-52 | That this rests on the frames coming back: a run of two slots, from the constructed helper, in which the bus takes every frame and all but one RID come back, and in which both get past RID with the same alias; the second RID is taken for the first slot's own |
| AliasRuns.OwnFrameHarmless | libraries/OpenLCB/OLCB_CAN_Alias_Helper.cpp:21-72 | The frame a slot sends, looped back to it, never makes that slot renegotiate or changes it at all |
| AliasRuns.TableStaysInOrder | libraries/OpenLCB/OLCB_CAN_Alias_Helper.cpp:9-197 | Permitted-state invariant of every run: an initialized node's slot is in READY, RESENDRID or SENDVERIFIEDNID and both agree on an alias in 1..4095; the alias is 0 exactly in EMPTY; EMPTY is never entered again; a slot keeps its NodeID; distinct slots hold distinct NodeIDs; HOLDING is never reached |
| AliasRuns.StepKeepsTable | libraries/OpenLCB/OLCB_CAN_Alias_Helper.cpp:9-197 | One action of any kind keeps that order, and no occupied slot is vacated or given to another NodeID |
| AliasHistory.InitializedHasReserved | libraries/OpenLCB/OLCB_CAN_Alias_Helper.cpp:98-193 | Reservation history of every run, refusals included: since its last (re)allocation an initialized node's slot has sent CID 1 to 4, RID, AMD and Initialization Complete in this order, all under the node's present alias, RID at least 500 ms of true time after CID 4, and no foreign non-CID frame with that alias came in between |
| AliasHistory.WaitIsReal | libraries/OpenLCB/OLCB_CAN_Alias_Helper.cpp:136-153 | 500 ms on the wrapping 32-bit clock are at least 500 ms of true time, however late the slot is served |
| AliasHistory.ElapsedIsTrueTime | libraries/OpenLCB/OLCB_CAN_Alias_Helper.cpp:138 | A difference of two clock readings less than one turn of the clock apart is the true time between them, across the wrap |
| AliasHistory.FrameKeepsLog | libraries/OpenLCB/OLCB_CAN_Alias_Helper.cpp:21-72 | Any delivered frame either leaves the slot's reservation standing or starts it over together with its log |
| AliasHistory.SpokenTurnKeepsLog | libraries/OpenLCB/OLCB_CAN_Alias_Helper.cpp:98-193 | Every frame a slot sends is the next one its reservation needs |
| AliasProgress.StartUpEnds | libraries/OpenLCB/OLCB_CAN_Alias_Helper.cpp:75-197 | Start-up progress: a slot that is renegotiating or newly allocated and left alone with its alias has its node initialized once update() has been called nine times per slot, plus one round for each turn it sat out the wait |
| AliasProgress.WorkingTurnsCount | libraries/OpenLCB/OLCB_CAN_Alias_Helper.cpp:98-193 | The ranking function: frames still to be sent fall by one on each turn that is not spent waiting, and nothing raises them while the slot is left alone |
| AliasProgress.ServedFairly | libraries/OpenLCB/OLCB_CAN_Alias_Helper.cpp:196 | The round robin is fair: calls of update() and turns of any one slot keep in step, exactly |
| AliasProgress.MissedExactly | libraries/OpenLCB/OLCB_CAN_Alias_Helper.cpp:56-64 | The exact condition for a start-up that goes wrong, at every moment of every run: a slot is permitted without its node being initialized if and only if a CID under its alias, from the wire or looped back from another slot, reached it after AMD and before Initialization Complete and it has kept the alias since |
| AliasProgress.StepMisses | libraries/OpenLCB/OLCB_CAN_Alias_Helper.cpp:9-197 | One action of any kind makes a slot miss its announcement if and only if it is such a challenge and finds the slot in INIT_COMPLETE |
| AliasProgress.ChallengeSkipsAnnouncement | libraries/OpenLCB/OLCB_CAN_Alias_Helper.cpp:154-193 | A slot that has come to INIT_COMPLETE and keeps its alias is there still, or has its node initialized, or missed; and it missed if and only if it was challenged while it was there |
| AliasProgress.IdleTurnsAreInTheWait | libraries/OpenLCB/OLCB_CAN_Alias_Helper.cpp:136-153 | In every run, a turn of a slot that has sent CID 4 is idle if and only if less than 500 ms have passed since then modulo 2^32; in true time that is before the wait is over or a whole turn of the clock later |
| AliasAnswers.ForeignFrames | libraries/OpenLCB/OLCB_CAN_Alias_Helper.cpp:21-72 | In every run, what a frame from the wire does to a slot: under another alias nothing; a CID sends INIT_COMPLETE and READY back to RID; any other frame under the slot's alias uninitializes the node and gives the slot, in CID1 to CID4, RID, AMD, INIT_COMPLETE or READY, another alias in 1..4095 to announce, and nothing at all in RELEASING, RESENDRID and SENDVERIFIEDNID |
| AliasAnswers.FrameOutcome | libraries/OpenLCB/OLCB_CAN_Alias_Helper.cpp:21-72 | The same for any frame and any slot in order, own frames included: a looped-back one that is not a CID makes a slot under its alias give up only before INIT_COMPLETE, and not an AMR in CID1 nor a RID in AMD |
| AliasAnswers.ConflictIsAnnounced | libraries/OpenLCB/OLCB_CAN_Alias_Helper.cpp:56-135 | A slot past its first CID that gives up its alias on a foreign frame sends AMR under that very alias on its next accepted turn, whatever else happens in between, and then negotiates the new one |
| AliasAnswers.ChallengeIsAnswered | libraries/OpenLCB/OLCB_CAN_Alias_Helper.cpp:56-175 | A settled slot that hears a foreign CID under its alias sends RID under it on its next accepted turn and is then ready |
| AliasAnswers.VerifyIsAnswered | libraries/OpenLCB/OLCB_CAN_Alias_Helper.cpp:348-389 | A verify request is answered by exactly the initialized nodes it is for, by everyone, NodeID or alias, each with Verified NodeID under its alias on its next accepted turn; it leaves every other slot as it is |
| AliasAnswers.TurnsInRuns | libraries/OpenLCB/OLCB_CAN_Alias_Helper.cpp:98-193 | In every run, an accepted turn of a slot that starts up sends the frame of its step, under its alias, and moves to the next step, RID not before 500 ms; the last step, and no other, initializes the node; a slot at rest or free sends nothing |
| AliasAnswers.AllocationStarts | libraries/OpenLCB/OLCB_CAN_Alias_Helper.cpp:217-274 | In every run, allocating a node makes the first free slot negotiate its seed alias, unless its NodeID is there already or no slot is free; every other slot stays as it is |
| AliasAnswers.ReleaseIsAnnounced | libraries/OpenLCB/OLCB_CAN_Alias_Helper.cpp:308-321 | A release uninitializes the first node the identifier stands for and no other, and AMR under its alias goes out on that slot's next accepted turn |
| AliasHelper.Helper.constructor | libraries/OpenLCB/OLCB_CAN_Link.h:71-79 | All slots start free |
| AliasHelper.Helper.Update | libraries/OpenLCB/OLCB_CAN_Alias_Helper.cpp:75-197 | The in-place state machine, with the state set before the send and taken back on refusal: exactly the slot at the index changes, as on values, the frame sent is the one specified, and the index moves on |
| AliasHelper.Helper.CheckMessage | libraries/OpenLCB/OLCB_CAN_Alias_Helper.cpp:9-73 | The loop over all slots makes of each exactly what the frame calls for |
| AliasHelper.Helper.CheckSlot | libraries/OpenLCB/OLCB_CAN_Alias_Helper.cpp:23-71 | One slot: renegotiates on exactly the conflicts, is woken by exactly the challenges, else stays as it is; no other slot changes |
| AliasHelper.Helper.Reallocate | libraries/OpenLCB/OLCB_CAN_Alias_Helper.cpp:276-306 | The node is uninitialized, the alias is new, the slot is to release the old one; other slots stay as they are |
| AliasHelper.Helper.VerifyNid | libraries/OpenLCB/OLCB_CAN_Alias_Helper.cpp:348-389 | Exactly the slots asked for are to send Verified NodeID |
| AliasHelper.Helper.AllocateAlias | libraries/OpenLCB/OLCB_CAN_Alias_Helper.cpp:217-274 | A known NodeID changes nothing; a new one takes the first holding slot, else the first empty one; without room nothing changes in the table |
| AliasHelper.Helper.ReleaseAlias | libraries/OpenLCB/OLCB_CAN_Alias_Helper.cpp:308-321 | Exactly the first slot whose node the identifier matches is to release its alias |
| AliasGenerator.StepArithmetic | libraries/OpenLCB/OLCB_CAN_Alias_Helper.cpp:285-294 | For all pairs of 24-bit words: a step falls short of x -> 513x + 0x1B0CA37A4BA9 mod 2^48, in the high word, by exactly the bits the carry (0 to 2) shares with the high sum; so the step is the congruential one if and only if they share none; both words stay below 2^24 |
| AliasGenerator.CarryIsLost | libraries/OpenLCB/OLCB_CAN_Alias_Helper.cpp:285-294 | And there are words for which they share some: from 0 and 0xFFFFFF the carry of 2 is lost in the high word, and the step is not the congruential one |
| AliasGenerator.Regenerate | libraries/OpenLCB/OLCB_CAN_Alias_Helper.cpp:283-298 | The retry loop: when it ends it has gone to the first later state whose alias is neither 0 nor the old one |
| AliasGenerator.NewAlias | libraries/OpenLCB/OLCB_CAN_Alias_Helper.cpp:296-298 | The new alias is in 1..4095, is not the old one, and is determined by the state the loop starts from |
| AliasGenerator.RetryUnfolds | libraries/OpenLCB/OLCB_CAN_Alias_Helper.cpp:283-298 | The retry step by step: a next state with an alias that is neither 0 nor the old one is the result, and otherwise the search goes on from there |
| CanFrame.SeedIsXorOfFragments | libraries/OpenLCB/OLCB_CAN_Alias_Helper.cpp:266-271 | The first alias tried for a NodeID is the exclusive or of the four fragments its CIDs carry, or 1 if that is 0 |
| CanFrame.FragmentsRebuildNid | libraries/OpenLCB/OLCB_CAN_Link.cpp:41-50 | The four CID fragments are twelve bits each and put together are the six bytes of the NodeID |
| CanFrame.FragmentsIdentify | libraries/OpenLCB/OLCB_CAN_Link.cpp:41-50 | Two NodeIDs with the same four fragments are the same |
| CanFrame.CanFramesDecode | libraries/OpenLCB/OLCB_CAN_Buffer.cpp:188-242 | For all 12-bit aliases and fragments: what the CID, RID, AMR and AMD builders make is read as exactly that kind, with that source, ordinal and fragment |
| CanFrame.CanKindsExclude | libraries/OpenLCB/OLCB_CAN_Buffer.cpp:197-242 | No identifier at all is read as two of CID, RID, AMR and AMD |
| CanFrame.DatagramsDecode | libraries/OpenLCB/OLCB_CAN_Buffer.cpp:517-567 | For all 12-bit aliases: each datagram builder's frame is read as that part, with that source, destination and bytes |
| CanFrame.DatagramLooksLikeAck | libraries/OpenLCB/OLCB_CAN_Buffer.cpp:569-584 | The reply readers look at the MTI bits only: a datagram frame passes for an ack if and only if it is addressed to 0xA28, for a nak if and only if to 0xA48 |
| CanFrame.RepliesDecode | libraries/OpenLCB/OLCB_CAN_Buffer.cpp:569-605 | For all 12-bit aliases and 16-bit codes: acks and naks are read as their kind, source, destination and error code |
| CanFrame.AnnouncementsDecode | libraries/OpenLCB/OLCB_CAN_Buffer.cpp:319-330 | Initialization Complete and Verified NodeID are read as themselves |
| CanFrame.CanFramesOnTheWire | libraries/OpenLCB/OLCB_CAN_Buffer.cpp:188-242 | The 29 bits themselves, for all aliases and fragments: CID i is 0x1000_0000 with 8 - i as its type and the fragment above the alias, RID 0x1070_0aaa, AMD 0x1070_1aaa, AMR 0x1070_3aaa |
| CanFrame.MessagesOnTheWire | libraries/OpenLCB/OLCB_CAN_Buffer.cpp:319-605 | The same for datagrams, 0x1A to 0x1D for Only, First, Middle and Last with destination and source, and for acks, naks, Initialization Complete and Verified NodeID |
| CanFrame.Masks | libraries/OpenLCB/OLCB_CAN_Buffer.h:12-116 | Every mask of a reading macro keeps exactly whole fields of the identifier |
| CanFrame.ClearMasks | libraries/OpenLCB/OLCB_CAN_Buffer.h:12-116 | Every clear-mask of a building macro keeps exactly the other fields |
| CanFrame.Reads | libraries/OpenLCB/OLCB_CAN_Buffer.h:24-116 | Every reading macro returns its field of any 29-bit identifier |
| FrameBits.AndHeaders | libraries/OpenLCB/OLCB_CAN_Buffer.h:24-116 | Masking an identifier masks its fields one by one |
| FrameBits.OrHeaders | libraries/OpenLCB/OLCB_CAN_Buffer.h:24-116 | Or-ing into an identifier ors its fields one by one |
| CanBuffer.Buffer.Init | libraries/OpenLCB/OLCB_CAN_Buffer.cpp:36-44 | A fresh frame: regular OpenLCB, empty, from the given alias |
| CanBuffer.Buffer.SetDestAlias | libraries/OpenLCB/OLCB_CAN_Buffer.cpp:82-100 | The destination goes into the first two data bytes of a regular frame, which is two bytes long if it was empty and else keeps its length and its other bytes; into the identifier of any other frame |
| CanBuffer.Buffer.SetCid | libraries/OpenLCB/OLCB_CAN_Buffer.cpp:188-195 | The frame built in place is read as the CID of that ordinal and source |
| CanBuffer.Buffer.SetRid | libraries/OpenLCB/OLCB_CAN_Buffer.cpp:202-208 | The frame built in place is read as a RID |
| CanBuffer.Buffer.SetAmr | libraries/OpenLCB/OLCB_CAN_Buffer.cpp:215-222 | The frame built in place is read as an AMR and carries the NodeID |
| CanBuffer.Buffer.SetAmd | libraries/OpenLCB/OLCB_CAN_Buffer.cpp:230-237 | The frame built in place is read as an AMD and carries the NodeID |
| CanBuffer.Buffer.Load | libraries/OpenLCB/OLCB_CAN_Link.cpp:282-309 | The fragment built in place is read as the datagram part with its source, destination and bytes |
| CanBuffer.Buffer.SetDatagramAck | libraries/OpenLCB/OLCB_CAN_Buffer.cpp:574-579 | The frame built in place is read as an ack for its destination |
| CanBuffer.Buffer.SetDatagramNak | libraries/OpenLCB/OLCB_CAN_Buffer.cpp:586-595 | The frame built in place is read as a nak with its destination and code |
| CanLink.LoopbackIsFaithful | libraries/OpenLCB/OLCB_CAN_Link.cpp:170-193 | The promise in the comment at line 572, that a frame sent is not clobbered before it is delivered to the node itself: over any run, all frames come back in order if and only if each call sends at most one frame and none while an own frame is being delivered |
| CanLink.Link.Loop | libraries/OpenLCB/OLCB_CAN_Link.cpp:170-193 | The sketch's loop delivers exactly the own frames the specification says |
| CanLink.Link.Update | libraries/OpenLCB/OLCB_CAN_Link.cpp:170-193 | One call delivers the waiting own frame and then the wire's; only the last frame sent after that waits for the next call |
| CanLink.Link.SendMessage | libraries/OpenLCB/OLCB_CAN_Link.cpp:562-577 | A frame that is sent replaces whatever the receive buffer held, marked internal |
| CanLink.OnlyTheLastComesBack | libraries/OpenLCB/OLCB_CAN_Link.cpp:170-193 | Over any run of calls, the one own frame that waits is the last the node sent in the last call, else the last of the alias helper's, else the last in answer to the wire; none sent while an own frame was delivered |
| CanLink.TransportKeepsAgreement | libraries/OpenLCB/OLCB_CAN_Link.cpp:100-166 | Whatever AMD, AMR or Verified NodeID frame the link handles, if what it takes from it is true to the protocol the cache goes on agreeing with the network; a Verified NodeID nobody asked for may say anything |
| CanLink.WithdrawnIsForgotten | libraries/OpenLCB/OLCB_CAN_Link.cpp:125-164 | After an AMR, or an AMD without NodeID, the alias is in the cache no more, every other entry is as it was, and an assembly is dropped exactly if it is from that alias |
| CanLink.AnswerIsLearned | libraries/OpenLCB/OLCB_CAN_Link.cpp:100-166 | After an AMD, or a Verified NodeID that was asked for and has an alias, both lookups find the binding, and the question is closed by the latter; an unasked one changes nothing; neither disturbs an assembly |
| CanLink.FragmentGoesToItsNode | libraries/OpenLCB/OLCB_CAN_Link.cpp:263-276 | A datagram sent to an alias found in the cache goes to the alias that its destination has on the network |
| CanLink.Link.HandleTransport | libraries/OpenLCB/OLCB_CAN_Link.cpp:100-166 | In place: cache, pending question and every handler's receive buffer change as specified; a Verified NodeID is taken only if it was asked for |
| CanLink.Link.ClearBuffers | libraries/OpenLCB/OLCB_CAN_Link.cpp:132-138 | Every handler drops its assembly from that node, and only that |
| CanLink.Link.SendVerifyNid | libraries/OpenLCB/OLCB_CAN_Link.cpp:318-336 | A question goes out only if none is pending or the last is two seconds old on the wrapping clock |
| CanLink.Link.LookUp | libraries/OpenLCB/OLCB_CAN_Link.cpp:263-275 | A missing alias is looked up, and any hit is good for sending, one without an alias too |
| CanLink.HitWithoutAlias | libraries/OpenLCB/OLCB_CAN_Link.cpp:263-276 | A fragment is sent to alias 0 if and only if its destination is blank and the cache has an empty entry |
| AliasCache.CacheAgreesWithNetwork | libraries/OpenLCB/OLCB_Alias_Cache.h:45-126 | Over every run of binding, releasing and asking, with any evictions: each live entry is a binding that holds now, and aliases and NodeIDs of live entries are pairwise distinct |
| AliasCache.LookupsAreInverse | libraries/OpenLCB/OLCB_Alias_Cache.h:79-108 | The two lookups hit for the same pairs, and those are bindings |
| AliasCache.EmptyEntriesGoFirst | libraries/OpenLCB/OLCB_Alias_Cache.h:57-75 | add overwrites only the first entry of least hit count, and a live one only if no entry is empty |
| AliasCache.AddedIsFound | libraries/OpenLCB/OLCB_Alias_Cache.h:45-77 | Whatever the cache holds, an identifier with an alias is found after it has been added |
| AliasCache.BindingIsLearned | libraries/OpenLCB/OLCB_Alias_Cache.h:45-108 | After a lawful AMD or Verified NodeID both lookups find the binding, each gives the other's half; at most one entry has changed, and no live one while an entry was empty |
| AliasCache.BindingStays | libraries/OpenLCB/OLCB_Alias_Cache.h:45-126 | A binding that is found stays found through every lawful call but the release of its alias, and an announcement when no entry is empty |
| AliasCache.ReleaseIsForgotten | libraries/OpenLCB/OLCB_Alias_Cache.h:110-126 | After a release no entry has the alias, and every other entry is as it was |
| AliasCache.HitsAreCounted | libraries/OpenLCB/OLCB_Alias_Cache.h:79-94 | However often a NodeID is asked for, only its entry's hit count changes, by one each time and never past 255 |
| AliasCache.AliasHitIsCounted | libraries/OpenLCB/OLCB_Alias_Cache.h:96-108 | Asking for an alias counts one hit, never past 255, for its entry alone |
| AliasCache.AskingForNoAlias | libraries/OpenLCB/OLCB_Alias_Cache.h:96-108 | Looking up alias 0 leaves the cache sound if and only if no entry is empty: otherwise it counts an empty entry as used |
| AliasCache.ZeroNidIsStored | libraries/OpenLCB/OLCB_CAN_Link.cpp:100-116 | A Verified NodeID of all zeros, which is listened to while nothing is asked for, leaves the cache sound if and only if an entry is empty or has that alias; then nothing is stored |
| AliasCache.AliasTable.constructor | libraries/OpenLCB/OLCB_Alias_Cache.h:29-42 | All entries start empty |
| AliasCache.AliasTable.Add | libraries/OpenLCB/OLCB_Alias_Cache.h:45-77 | The scan finds a match or the first of the least used entries, in place |
| AliasCache.AliasTable.GetAliasByNid | libraries/OpenLCB/OLCB_Alias_Cache.h:79-94 | The first match is returned and counted |
| AliasCache.AliasTable.GetNidByAlias | libraries/OpenLCB/OLCB_Alias_Cache.h:96-108 | The first entry with the alias is returned and counted |
| AliasCache.AliasTable.RemoveByAlias | libraries/OpenLCB/OLCB_Alias_Cache.h:110-126 | Exactly the first entry with the alias becomes empty |
| DatagramTransfer.DatagramRoundTrip | libraries/OpenLCB/OLCB_Datagram_Handler.cpp:32-190 | Round trip under interleaving: the frames repeated update() calls send, with any frames from other non-zero aliases in between, make a permitted receiver with a free buffer call processDatagram exactly once, with the identical bytes, and leave its buffer free and the sender done |
| DatagramTransfer.DatagramIsAssembled | libraries/OpenLCB/OLCB_Datagram_Handler.cpp:109-175 | The receiver's half: fragments of any datagram in order, whatever else arrives in between, give one call with its bytes |
| DatagramTransfer.UpdatesSendFragments | libraries/OpenLCB/OLCB_Datagram_Handler.cpp:222-246 | The sender's half: however often update() is called, frames sent and frames left make up the fragments of the datagram, and enough calls send them all |
| DatagramTransfer.UpdateSendsNext | libraries/OpenLCB/OLCB_CAN_Link.cpp:282-315 | One update() sends the next fragment, or a queued reply first |
| DatagramTransfer.FragmentsAreFaithful | libraries/OpenLCB/OLCB_CAN_Link.cpp:282-309 | An Only frame if the datagram fits, else a full First frame, full Middle frames and a Last frame; joined they are the datagram |
| DatagramTransfer.TailIsFaithful | libraries/OpenLCB/OLCB_CAN_Link.cpp:295-309 | Middle frames are full, the Last one is not empty unless there is nothing left, and nothing is lost |
| DatagramTransfer.StrangerIsRefused | libraries/OpenLCB/OLCB_Datagram_Handler.cpp:114-188 | A frame from another non-zero alias, whatever it is, leaves an assembly as it is |
| DatagramTransfer.OwnFrameIsTaken | libraries/OpenLCB/OLCB_Datagram_Handler.cpp:114-175 | A Middle frame of the datagram adds its bytes; its Last frame hands over the whole and frees the buffer |
| DatagramTransfer.UnknownDestination | libraries/OpenLCB/OLCB_Datagram_Handler.cpp:224-241 | While the destination's alias is unknown nothing is sent but a question, yet the call counts the datagram as sent if and only if it is empty |
| DatagramReplies.SentDatagramArrives | libraries/OpenLCB/OLCB_Datagram_Handler.cpp:3-255 | Round trip from sendDatagram on: a datagram given to a handler with a free buffer goes out, in the course of enough updates, in exactly its own fragments from the handler's own alias to the given destination's, and a free receiver of that alias, whatever reaches it in between, gets its bytes in exactly one call, from the sender's alias |
| DatagramReplies.SentDatagramFindsAlias | libraries/OpenLCB/OLCB_CAN_Link.cpp:256-316 | And to a destination without alias it goes out in the same fragments, to the alias the cache has for it |
| DatagramReplies.OccupiedRefuses | libraries/OpenLCB/OLCB_Datagram_Handler.cpp:3-25 | sendDatagram changes nothing if and only if the transmit buffer is occupied |
| DatagramReplies.VerdictIsAnswered | libraries/OpenLCB/OLCB_Datagram_Handler.cpp:151-175 | A completed datagram is handed over and its source is sent an ack if and only if the verdict is 0xFFF0, else a nak with the verdict; at once if the bus takes it, else by the next update |
| DatagramReplies.RefusalIsAnswered | libraries/OpenLCB/OLCB_Datagram_Handler.cpp:114-188 | A fragment that cannot be taken is naked to its sender and changes nothing else: 0x6000 exactly for a closing one that finds the buffer free, else 0x2000; one that goes on with a datagram is not answered |
| DatagramReplies.AnswersGoOutOnce | libraries/OpenLCB/OLCB_Datagram_Handler.cpp:204-216 | An answer the bus refused is sent once: with none queued no update answers anything or queues an answer |
| DatagramReplies.ResultsAreReported | libraries/OpenLCB/OLCB_Datagram_Handler.cpp:42-84 | An ack reports success and frees the transmit buffer; a nak reports its code and repeats the datagram from the start if its resend bit is set, else frees the buffer |
| DatagramReplies.HandledExactly | libraries/OpenLCB/OLCB_Datagram_Handler.cpp:32-190 | A frame is reported dealt with if and only if it is a fragment, ack or nak for the alias of the handler's permitted node; otherwise it changes nothing, and an unpermitted handler's update does nothing |
| DatagramReplies.ReplyIsAwaited | libraries/OpenLCB/OLCB_Datagram_Handler.cpp:234-255 | From the update that sends the last fragment on, the datagram is given up as unacknowledged by exactly the updates more than 5000 ms of true time later, less than a turn of the clock away; the others do nothing |
| DatagramReplies.UnknownIsAwaited | libraries/OpenLCB/OLCB_Datagram_Handler.cpp:224-233 | From sendDatagram on, each update asks for an unknown destination, and exactly those more than 5000 ms of true time later give the datagram up as aborted |
| DatagramReassembly.CallsAreExplained | libraries/OpenLCB/OLCB_Datagram_Handler.cpp:109-190 | Soundness for any input: every processDatagram call has exactly the bytes of one Only frame, or of one First frame taken with a free buffer and of every later Middle and Last frame of that source in order; nothing from anyone else or from a refused First enters |
| DatagramReassembly.ClosingFramesCall | libraries/OpenLCB/OLCB_Datagram_Handler.cpp:114-188 | And completeness: a closing frame leads to a call if and only if it is an Only frame that finds the buffer free or a Last frame of the assembly's own source |
| DatagramReassembly.AlwaysAccounted | libraries/OpenLCB/OLCB_Datagram_Handler.cpp:109-190 | At every moment of every run what is in the receive buffer is accounted for by one First frame and what followed from its source |
| DatagramLedger.SendsAreConserved | libraries/OpenLCB/OLCB_Datagram_Handler.cpp:3-25 | Conservation: in every run with well-timed replies, sendDatagram calls accepted equal acks, final naks and timeouts, plus one if the transmit buffer is occupied; the transmit flag implies an occupied buffer, and the position never passes the length |
| DatagramLedger.CallBalances | libraries/OpenLCB/OLCB_Datagram_Handler.cpp:42-84 | Each call, of any kind, with a well-timed reply keeps the books balanced and the transmit side in order |
| DatagramLedger.OnlyTimelyBalances | libraries/OpenLCB/OLCB_Datagram_Handler.cpp:42-84 | And only such a call does: an ack while fragments are still to go, or a reply with nothing outstanding, upsets them, exactly |
| DatagramTransfer.ResendRepeatsDatagram | libraries/OpenLCB/OLCB_Datagram_Handler.cpp:64-70 | A nak that asks for it, at whatever point it comes, repeats the datagram from its first byte: the buffer stays occupied, and the updates that follow send all its frames again |
| DatagramHandler.DatagramPort.constructor | libraries/OpenLCB/OLCB_Datagram_Handler.h:21 | Both buffers start free, nothing is queued |
| DatagramHandler.DatagramPort.SendDatagram | libraries/OpenLCB/OLCB_Datagram_Handler.cpp:3-25 | The datagram is copied into the transmit buffer if that is free, else nothing changes |
| DatagramHandler.DatagramPort.HandleMessage | libraries/OpenLCB/OLCB_Datagram_Handler.cpp:32-190 | The handler's fields and buffers become those of the specification, the same events happen, and the frame is reported handled exactly if it is a fragment or reply for this node |
| DatagramHandler.DatagramPort.HandleFragment | libraries/OpenLCB/OLCB_Datagram_Handler.cpp:109-189 | The branches of reception on the buffers in place |
| DatagramHandler.DatagramPort.Append | libraries/OpenLCB/OLCB_Datagram_Handler.cpp:144-149 | The copy loop appends the frame's bytes |
| DatagramHandler.DatagramPort.SendReply | libraries/OpenLCB/OLCB_Datagram_Handler.cpp:157-170 | A reply the bus does not take is queued |
| DatagramHandler.DatagramPort.SendDatagramFragment | libraries/OpenLCB/OLCB_CAN_Link.cpp:256-316 | The fragment that starts at the given byte, in place |
| DatagramHandler.DatagramPort.Update | libraries/OpenLCB/OLCB_Datagram_Handler.cpp:204-256 | Queued reply, next fragment, or timeout, in that order, in place |
| DatagramHandler.DatagramPort.ClearBuffer | libraries/OpenLCB/OLCB_Datagram_Handler.cpp:258-265 | An assembly from the given node is dropped |
| EventQueue.NothingIsStranded | libraries/OpenLCB/OLCB_Event_Handler.cpp:13-333 | In every run from a cursor at 0, with updates accepted or refused and requests of every kind, no event below the cursor has anything to send |
| EventQueue.DrainsInOrder | libraries/OpenLCB/OLCB_Event_Handler.cpp:13-71 | With the bus willing and no new requests, n updates send exactly the first n pending messages, one each, in table order, and then nothing |
| EventQueue.UpdatePops | libraries/OpenLCB/OLCB_Event_Handler.cpp:21-70 | One accepted update sends the head of the queue of pending messages and leaves the rest |
| EventQueue.RefusedUpdate | libraries/OpenLCB/OLCB_Event_Handler.cpp:32-64 | One refused update sends nothing and leaves the queue, except that a teaching message at its head is lost, exactly then |
| EventQueue.PendingIsWanted | libraries/OpenLCB/OLCB_Event_Handler.cpp:29-64 | A message is pending if and only if the flags of its event ask for it |
| EventQueue.PendingOnce | libraries/OpenLCB/OLCB_Event_Handler.cpp:29-64 | Nothing is pending twice |
| EventQueue.PendingInOrder | libraries/OpenLCB/OLCB_Event_Handler.cpp:29-64 | Messages are queued in the order of the table, and for one event identification before report before teaching |
| EventQueue.StepKeepsQueue | libraries/OpenLCB/OLCB_Event_Handler.cpp:91-333 | Every operation, with any outcome, keeps the cursor at or before the first event with something to send |
| EventQueue.IdentifyIsQueued | libraries/OpenLCB/OLCB_Event_Handler.cpp:233-277 | Identify requests change exactly the capable events with the ID; each of these is then queued as a producer if it can produce, and as a consumer if and only if it cannot |
| EventQueue.ProducedIsQueued | libraries/OpenLCB/OLCB_Event_Handler.cpp:91-111 | An event that can be produced is queued to be reported |
| EventQueue.ConsumersExactly | libraries/OpenLCB/OLCB_Event_Handler.cpp:205-231 | A report reaches exactly the events with its ID that can consume it |
| EventQueue.ConsumersInOrder | libraries/OpenLCB/OLCB_Event_Handler.cpp:205-231 | Each of them once, in the order of the table |
| EventRequests.StepChangesExactly | libraries/OpenLCB/OLCB_Event_Handler.cpp:13-333 | The exact effect of every operation on every event, by what its flag bits stand for: the ID changes for exactly those that wait when a Learn Event comes, and becomes its ID; each mark is set by exactly its own requests, and cleared only when its message leaves the queue; capabilities only grow, by newEvent; bits without meaning stay |
| EventRequests.PendingExactly | libraries/OpenLCB/OLCB_Event_Handler.cpp:29-64 | A message is on the queue if and only if the marks of its event ask for it, in terms of single bits |
| EventRequests.LearningTakesId | libraries/OpenLCB/OLCB_Event_Handler.cpp:279-324 | Over runs: an event told to learn, whatever operations come in between, takes the ID of the next Learn Event and waits no more, its identification is queued if it has a capability, and a report of that ID reaches it if it can consume |
| EventRequests.OthersDoNotLearn | libraries/OpenLCB/OLCB_Event_Handler.cpp:279-301 | An event that does not wait is untouched by a Learn Event |
| EventHandler.Handler.LoadEvents | libraries/OpenLCB/OLCB_Event_Handler.cpp:73-89 | All flags are cleared, IDs are kept, and the cursor is left where it is |
| EventHandler.Handler.Update | libraries/OpenLCB/OLCB_Event_Handler.cpp:13-71 | The loop in place: cursor, flags and message as specified; nothing while not permitted |
| EventHandler.Handler.Produce | libraries/OpenLCB/OLCB_Event_Handler.cpp:91-111 | In place, and reports whether the event can be produced |
| EventHandler.Handler.HandleIdentifyEvents | libraries/OpenLCB/OLCB_Event_Handler.cpp:192-203 | Every event is marked and the cursor returns to 0 |
| EventHandler.Handler.FindIndex | libraries/OpenLCB/OLCB_Event.h:78-87 | The next event with the ID from the index on, or -1 if there is none |
| EventHandler.Handler.HandleIdentify | libraries/OpenLCB/OLCB_Event_Handler.cpp:233-277 | The search loop marks exactly the capable events, lowers the cursor to the first, and reports whether there is one |
| EventHandler.Handler.HandleReport | libraries/OpenLCB/OLCB_Event_Handler.cpp:205-231 | Every consumer is asked, in table order, and the result is whether one of them took the event |
| EventHandler.Handler.HandleLearnEvent | libraries/OpenLCB/OLCB_Event_Handler.cpp:279-301 | Every event that waits to learn takes the ID, stops waiting and is to be identified; saving is asked for exactly if there is one |
| EventHandler.Handler.NewEvent | libraries/OpenLCB/OLCB_Event_Handler.cpp:303-316 | The capabilities are added and the event is to be identified |
| EventHandler.Handler.MarkToLearn | libraries/OpenLCB/OLCB_Event_Handler.cpp:318-324 | Only the learn flag of that event changes |
| EventHandler.Handler.MarkToTeach | libraries/OpenLCB/OLCB_Event_Handler.cpp:326-333 | Only the teach flag of that event changes, and the cursor is lowered to it |
| Float16.NarrowingTruncates | libraries/OpenLCB/float16.c:21-71 | For all finite magnitudes: below 2^16 the result is the greatest binary16 that does not exceed the operand, subnormals and underflow included; from 2^16 on it is infinity |
| Float16.NarrowingIsMonotone | libraries/OpenLCB/float16.c:9-76 | Order is kept for all pairs of finite numbers of either sign |
| Float16.NarrowingKeepsOrder | libraries/OpenLCB/float16.c:21-71 | A larger magnitude never narrows to a smaller one |
| Float16.Float32ToFloat16 | libraries/OpenLCB/float16.c:9-76 | The operations of the code compute that result with the operand's sign, and keep infinities infinite and NaNs NaN |
| Float16.Float16ToFloat32 | libraries/OpenLCB/float16.c:78-140 | For all 65536 patterns: finite numbers widen to exactly the same number and sign, infinities and NaNs keep their bits |
| Float16.Renormalize | libraries/OpenLCB/float16.c:102-107 | The loop that shifts a subnormal ends with the leading one in the hidden place, and the wrapped exponent counts the shifts |
| Float16.ExactNarrows | libraries/OpenLCB/float16.c:21-71 | A binary32 that is exactly a finite binary16 narrows to it |
| Float16.RoundTrip | libraries/OpenLCB/float16.c:9-140 | Widening and then narrowing is the identity on all 65536 patterns |
| HandlerList.Link.AddVNode | libraries/OpenLCB/OLCB_Link.cpp:17-25 | The node is pushed on the front, the rest keeps its order, the chain stays acyclic |
| HandlerList.Link.RemoveVNode | libraries/OpenLCB/OLCB_Link.cpp:27-78 | Exactly that node leaves, if it is there, and the rest keeps its order |
| HandlerList.Link.Update | libraries/OpenLCB/OLCB_Link.cpp:3-15 | The handler at the iterator is served, and the iterator moves to the next or back to the head |
| HandlerList.Link.Loop | libraries/OpenLCB/OLCB_Link.cpp:3-15 | Any number of calls serve the handlers in rotation |
| HandlerList.RoundServesEachOnce | libraries/OpenLCB/OLCB_Link.cpp:3-15 | Wherever the iterator stands, as many consecutive calls as there are handlers serve each exactly once |
| HandlerList.WithoutAt | libraries/OpenLCB/OLCB_Link.cpp:47-68 | In a list without duplicates, deletion takes out one entry and joins what is before and after it |
| SnipReply.RequestIsAnswered | Io_16P_16C_default/MyInfoHandler.cpp:25-132 | For every EEPROM content: the payloads of the frames for one request, put together, are the fixed string with newlines turned to 0 and its terminator, then 1, then the user name and the description, each up to and with its first 0; every frame has one to six of these bytes |
| SnipReply.PayloadsMakeRemaining | Io_16P_16C_default/MyInfoHandler.cpp:45-130 | From any point of the reply the frames still to come carry exactly what remains, and they come to an end |
| SnipReply.ChunkIsNext | Io_16P_16C_default/MyInfoHandler.cpp:45-128 | Each call sends the next one to six bytes, none twice and none left out |
| SnipReply.FillTakesFront | Io_16P_16C_default/MyInfoHandler.cpp:94-101 | The fill loop takes the front of the cut string and has ended exactly when it has taken all of it |
| SnipReply.RequestsDoNotDisturb | Io_16P_16C_default/MyInfoHandler.cpp:145-213 | Whatever requests come between the calls before a reply's last frame, all are refused and the frames sent are those of the reply, one a call, to the node that asked first |
| SnipReply.RequestToReply | Io_16P_16C_default/MyInfoHandler.cpp:25-213 | From the request on: a node with nothing else to send takes it, and as many calls as the reply has pieces, with any requests in between, send frames that are all addressed to who asked and carry together the whole reply; then there is nothing more to send |
| SnipReply.WholeReplyIs | Io_16P_16C_default/MyInfoHandler.cpp:13-130 | The whole reply, byte by byte: version 1 and the four fixed strings with a 0 after each, then 1 and the strings stored at 1028 to 1059 and 1060 to 1187 |
| SnipReply.CutIs | Io_16P_16C_default/MyInfoHandler.cpp:92-101 | A stored string is sent up to and with its first 0, or all of it if it has none |
| SnipReply.FramesNeeded | Io_16P_16C_default/MyInfoHandler.cpp:45-130 | A reply takes six frames for the fixed strings and the least possible number for the stored ones: every frame is full but the last of each part |
| SnipReply.InquiryIsAnswered | Io_16P_16C_default/MyInfoHandler.cpp:181-213 | A protocol inquiry to a node that is not busy is answered on the next call, to who asked, with exactly the bits of the five and two protocols, once |
| SnipReply.WaitingAnswerIsLost | Io_16P_16C_default/MyInfoHandler.cpp:170-178 | A request for the strings taken while a protocol answer waits overwrites that answer, exactly when one waits |
| InfoHandler.Handler.constructor | Io_16P_16C_default/MyInfoHandler.cpp:135-143 | Nothing is under way at the start |
| InfoHandler.Handler.HandleMessage | Io_16P_16C_default/MyInfoHandler.cpp:145-217 | Requests are taken or refused as specified |
| InfoHandler.Handler.ReadString | Io_16P_16C_default/MyInfoHandler.cpp:92-101 | The loop reads up to the first 0, the end of the string or the end of the frame into the reply in place |
| InfoHandler.Handler.SendFixed | Io_16P_16C_default/MyInfoHandler.cpp:50-76 | The next piece of the fixed string, with newlines turned to 0 |
| InfoHandler.Handler.SendStored | Io_16P_16C_default/MyInfoHandler.cpp:79-128 | Version byte, user name and description share frames as specified |
| InfoHandler.Handler.Update | Io_16P_16C_default/MyInfoHandler.cpp:25-132 | Prepared answer, fixed string or stored strings, one frame a call |
| EventStore.BlocksNeverOverlap | Io_16P_16C_default/MyEventHandler.cpp:116-178 | Over any run of factory resets, two events get the same suffix if and only if they are the same event of resets a multiple of 2048 apart; so none repeats within 2048 resets |
| EventStore.BlockIsDistinct | Io_16P_16C_default/MyEventHandler.cpp:150-173 | Within one reset all suffixes differ |
| EventStore.CounterMovesOn | Io_16P_16C_default/MyEventHandler.cpp:138-147 | After k resets the stored base has moved by 32k modulo 65536, across its two bytes |
| EventStore.ResetIdsAreLoaded | Io_16P_16C_default/MyEventHandler.cpp:116-178 | Loaded after a factory reset, event i has the ID of the six bytes of the NodeID and the two of the suffix base + i modulo 65536, high byte first |
| EventStore.FirstIdsAreLoaded | Io_16P_16C_default/MyEventHandler.cpp:68-114 | Loaded after the first format, event i has the ID 5.2.1.2.2.0.0 and i modulo 16, so producers and consumers pair up |
| EventStore.FirstFormatIsNameless | Io_16P_16C_default/MyEventHandler.cpp:96-106 | A freshly formatted board describes itself with two empty strings behind the fixed ones |
| EventStore.Store.FactoryReset | Io_16P_16C_default/MyEventHandler.cpp:116-178 | On a formatted EEPROM event i gets the NodeID and the suffix base + i, the base moves by 32, both modulo 65536, and nothing behind the table changes; on another one the first format is written |
| EventStore.Store.NewBlock | Io_16P_16C_default/MyEventHandler.cpp:123-177 | The formatted case, with the carry between the split bytes of both counters |
| EventStore.Store.FirstInitialization | Io_16P_16C_default/MyEventHandler.cpp:68-114 | The pool of IDs, the cleared strings, the base 0x10 and the mark, and nothing else |
| EventStore.Store.StoreEvents | Io_16P_16C_default/MyEventHandler.cpp:6-18 | The EEPROM behind its first four bytes holds the table, and is else as before |
| EventStore.Store.LoadEvents | Io_16P_16C_default/MyEventHandler.cpp:20-31 | The table is what the EEPROM holds; flags stay |
| EventStore.Store.ReadConfig | Io_16P_16C_default/MyEventHandler.cpp:246-283 | The buffer gets exactly the bytes of the range as granted, and no other byte of it changes |
| EventStore.Store.WriteConfig | Io_16P_16C_default/MyEventHandler.cpp:285-321 | Exactly the bytes of the range as granted change, flags stay, and the table is to be stored |
| EventStore.Store.Flush | Io_16P_16C_default/MyEventHandler.cpp:220-224 | A changed table is stored, once |
| EventStore.ConfigIsDurable | Io_16P_16C_default/MyEventHandler.cpp:6-31 | What is written ends up in EEPROM at the very same addresses, disturbs no other byte there, and is what load gives back |
| EventStore.LocateIsRight | Io_16P_16C_default/MyEventHandler.cpp:250-268 | For all 16-bit addresses: split in 8- and 16-bit words they land inside an event if and only if they are at least 4 modulo 8, and on the right byte if and only if they are below 2048 as well |
| EventStore.GrantedFits | Io_16P_16C_default/MyEventHandler.cpp:255-257 | A granted range stays inside the table and is the whole range if that fits; one that does not is cut so that it ends four bytes before the table does |
| Bits.OrPlusAnd | libraries/OpenLCB/OLCB_CAN_Alias_Helper.cpp:293 | The law of the or-ed carry: or plus and is the sum |
| Bits.OrDisjoint | libraries/OpenLCB/OLCB_CAN_Buffer.h:30 | Or-ing into bits that are clear is adding |

## Left out

- `idleAlias`, `preAllocateAliases` and thereby HOLDING slots and slots without a node: nothing calls them. A comparison with the node of a slot is one with a node that is present; the code reads through a null pointer in `allocateAlias`, `releaseAlias` and an addressed `verifyNID`.
- AliasGenerator.Regenerate: the retry loop is proved on the assumption that it ends (`RetryEnds`, a precondition wherever a conflict leads to it), because the generator's words are never seeded and no bound on its search is stated; everything else about it holds for all words.
- AliasRuns.AliasesStayExclusive: assumes that sends of slots past RID are accepted and that the helper's frames come back before its next turn; `CanLink.LoopbackIsFaithful` says when the link sees to the latter.
- AliasHelper.Helper.AllocateAlias: where the library stops for good without room, the method returns false.
- AliasProgress.StartUpEnds: says nothing of a slot whose alias someone else uses, or which is released meanwhile; what can still go wrong after AMD is exactly `AliasProgress.MissedExactly`.
- DatagramHandler.DatagramPort.HandleMessage: a frame for this node that the handler takes must fit what is left of the buffer's 72 bytes, else the code writes past it; nothing is asked of frames it ignores or refuses. The same for `HandleFragment`.
- EventHandler.Handler.HandleReport: tables of more than 32767 events, for which the code's 16-bit index wraps; the methods of the handler assume no more than that.
- EventStore.Store.ReadConfig: start addresses less than 4 modulo 8, for which the code's index runs outside the event's eight bytes (`EventStore.LocateIsRight`) and what it reads is undefined.
- EventStore.Store.WriteConfig: the same addresses, for which it writes outside the event.
- CanLink.Link.HandleTransport: AME (its reader tests the wrong field) and the AMD replies the helper sends to it outside its state machine; Verify NodeID is `AliasHelper.Helper.VerifyNid`.
- `deliverMessage` beyond the order of delivery: filling in NodeIDs from the cache, choosing handlers by destination, Optional Interaction Rejected.
- Delivery of datagrams addressed to 0xA28 or 0xA48 through the link's classifiers, which take them for replies (`CanFrame.DatagramLooksLikeAck`); datagram properties are stated at the handler.
- A sender that restarts while its receiver is busy with the first try: the code does not see to a clean assembly there.
- Changes of a node's permission or alias in the middle of a datagram: runs of the datagram handler are about one that keeps both.
- The event handler's decoding of messages, ranges of events, pins and buttons: thin decoding around the queue.
- InfoHandler.Handler.HandleMessage: its requests are those addressed to the node while it is permitted; the address test and the base class's own update are not modelled.
- Streams, `DCC_Proxy`, `Train`, `LocomotiveFactory`, command stations, clocks, displays, `MyConfigHandler`: decoding over other libraries.
- Hardware: CAN controller, FT245, timers, pins, watchdog, serial port. Real EEPROM wear and timing.
