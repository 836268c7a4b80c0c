# Verified models of the dispatch backend

This project models the stateful parts of the backend and proves what their runs guarantee. Each file holds one
module.

**The bid-rate auction.** `Auction.dfy` has one bid: its official rate, the card timer, the `+1` participants with
timers of their own, the four-minute offers with their frozen voters, voting, expiry, archiving and purging. Every
request is an atomic step at a whole second. `AuctionInvariant.dfy` proves what every step keeps, `AuctionRuns.dfy`
has the lemmas about runs, `AuctionEffects.dfy` says field by field when each request is taken and what it stores, and
`AuctionRate.dfy`, `AuctionVoting.dfy` and `AuctionTimers.dfy` prove what follows over whole runs.
`BidRatesService.dfy` is the service over its table, each handler in the statement order of the source and proved
to be the corresponding step. `ExpiryRace.dfy` splits the resolver of expired offers into its reads, its look at the
clock, its conditional claim and its write, and lets any number of them interleave with all other requests;
`ExpiryStories.dfy` shows what that does not guarantee, `ExpiryMinimum.dfy` and `ExpiryClaims.dfy` when exactly it does;
`ExpirySweep.dfy` has the sequential sweep.

**Messages.** `UnreadCounters.dfy` and `MessagesService.dfy` have the read state and the cached unread counters,
`MessageEffects.dfy` what each request does row by row, `IdempotentSend.dfy` the racing retries of one send,
`MessageSync.dfy` the anchor-based sync, `MessageSyncTies.dfy` the same with shared stamps, `MessageArchive.dfy` and
`ArchiveService.dfy` the move between the table and the archive files, with failures at any step, and the restore.

**LOAD chats.** `LoadChats.dfy` has create, convert and fork as transactions under an advisory lock, and attach as reads
and a write without it, step by step; `CreateLoadChat.dfy` and `AddDrivers.dfy` the requests over several drivers; `StaffSync.dfy` the
reconciliation of staff.

**Small protocols.** `DrainQueue.dfy` is the in-process queue that three services share, `GeocodeCache.dfy` the
double-checked cache in front of one of them, `PushBroadcast.dfy` the batches of another, `Presence.dfy` the socket map
with delayed offline. `PickupCalendar.dfy` reads pickup dates and hours and orders deadlines, over the date arithmetic
of section 21.4.1 of ECMA-262; `PickupWindow.dfy` says what the three fields of a window mean. `Options.dfy` has the option type.

Clocks, database row orders, new keys, answers of the network and the failures of each step are parameters. Rates are
`real`; all integers that the source uses stay far below the range in which a JavaScript number is exact.

## What turned out not to hold

Each of these is shown by a lemma. Where a lemma is named `...ExactlyWhen`, or says if and only if in the table, it gives
the exact condition under which the code does what is expected.

- The official rate can rise without a direct write of the owner: `AuctionRate.RateCanRise`. The condition is in
  `RateRisesExactlyWhen` for a step and in `RateNeverRises` for a run.
- The canVote flag is wrong in one second of each offer: `AuctionVoting.FlagMeansVotePasses`.
- Concurrent resolvers can leave a rate that is not the lowest: `ExpiryStories.CrossingMissesMinimum`. They never do if
  and only if the offers to apply ask for one rate: `ExpiryMinimum.LowestExactlyWhen`. One at a time they always reach it.
- The claim compares a stamp in whole seconds, so a rejected price can become official when its owner replaces it
  within the second: `ExpiryStories.SameSecondStory` is such a run, `ExpiryClaims.ReplacementIsCleared` has it for every
  replacement, and `ExpiryClaims.StaleClaimPossibleExactlyWhen` gives the exact condition over all continuations.
- Two overlapping reads of one message make the unread counters drift: `UnreadCounters.StaleReadExactWhen`.
- Joining a room that has messages, a driver's room-wide read, and archiving unread messages make the unread counters
  drift: `JoinExactWhen`, `LateReadExactWhen`, `ArchiveExactWhen` of module `UnreadCounters`.
- The unique constraint behind idempotent sends does not contain the sender (`prisma/schema.prisma`, line 514), while the
  look-up does: `IdempotentSend.CollisionExactlyWhen`; it happens: `SecondSenderCollides`.
- From an anchor that the user cannot see, the sync skips a message stamped exactly with the cutoff:
  `MessageSync.HiddenAnchorSkips`. From any anchor it skips messages when a batch ends between two of one stamp:
  `MessageSyncTies.DeliversAllExactlyWhen`.
- Attaching a driver in place takes no lock and runs in no transaction. Two attaches can leave a LOAD room with two
  drivers or a driver with two live rooms, and so can an attach and a locked transaction: the `Overlapping...` lemmas and
  `AttachCanDuplicate` of module `LoadChats`, for all states. `LoadChats.OneRoomPerLoadAndDriver` has the condition.
- A failed existence check reads as "no file", and then an upload can replace a day's file and lose its messages:
  `MessageArchive.LostExactlyWhen`.
- A day that was archived while part of it was still recent is never finished: `MessageArchive.PartlyArchivedDayStays`.
  The comment at line 439 of `src/chats/messages-archive.service.ts` takes such a day to need nothing more; the code is
  followed. Attachments are dropped by the grouping (lines 768-780), although the file format has a place for them.
- A storage listing is cut at 1000 files and unreadable files are passed over, so a restore that reports success may be
  partial: `ArchiveService.RestoreCompleteExactlyWhen`.
- A user whose sockets close in the wrong order stays online: `Presence.WrongOrderSticks`, `Presence.StuckStays`; the
  exact condition is in `Presence.StaysOnlineExactlyWhen`.

## Model

| member | source | states |
|---|---|---|
| AuctionInvariant.InvReachable | src/bid-rates/bid-rates.service.ts:22-34 | In every state that any run of a new bid can reach: one owner row; every timer cycle extended 0 to 3 times; snapshots non-empty, duplicate-free, without the offerer, with the owner; no stored offer holds a reject; at most one holds an accept; at most three offers in the window, each later one strictly cheaper; Do-Not-Bid bids hold no offer |
| AuctionInvariant.InvStep | src/bid-rates/bid-rates.service.ts:373-388 | Each single request or cron tick keeps that invariant, from any state that satisfies it |
| AuctionInvariant.InvRun | src/bid-rates/bid-rates.service.ts:1256-1531 | The invariant holds at the end of every run that starts from a state satisfying it |
| AuctionInvariant.InvLater | src/bid-rates/bid-rates.service.ts:168-177 | The passing of time alone breaks nothing, across both freshness windows |
| AuctionInvariant.SnapshotVoters | src/bid-rates/bid-rates.service.ts:184-225 | A new offer's frozen voters are exactly the running +1 users and the owner, minus the offerer, once each, pending, with their current +1 cycle, whatever order the rows came in |
| AuctionInvariant.NoAutoAccept | src/bid-rates/bid-rates.service.ts:1325-1400 | The branch that accepts a price at once because nobody can vote is never taken |
| AuctionInvariant.InvNewPrice | src/bid-rates/bid-rates.service.ts:422-508 | The four price guards together keep at most three active offers with strictly falling rates |
| AuctionInvariant.InvVote | src/bid-rates/bid-rates.service.ts:349-371 | A vote, whether it rejects, is recorded or completes the ballot, keeps the invariant |
| AuctionInvariant.BallotIsSnapshot | src/bid-rates/bid-rates.service.ts:1955-1966 | The owner is always in the ballot they may use, so no entry is ever appended to a snapshot |
| AuctionInvariant.OnlyOfferLeft | src/bid-rates/bid-rates.service.ts:2045-2053 | After an accept is recorded the accepted offer is the only stored one, with the new ballot and an unchanged official rate |
| AuctionInvariant.InvExtendBid | src/bid-rates/bid-rates.service.ts:1175-1238 | Extending the card keeps it within its cycle; an archived card is past the limit |
| AuctionInvariant.InvExtendPlusOne | src/bid-rates/bid-rates.service.ts:2160-2255 | Extending a +1 timer keeps it within its cycle and changes no other row |
| AuctionInvariant.InvJoin | src/bid-rates/bid-rates.service.ts:1580-1692 | Joining and re-joining keep the invariant |
| AuctionInvariant.InvResolve | src/bid-rates/bid-rates.service.ts:2373-2487 | Resolving an expired offer keeps the invariant |
| AuctionRate.RateRisesExactlyWhen | src/bid-rates/bid-rates.service.ts:373-388 | One step raises the official rate if and only if it is a direct write above the rate or the last accept of an offer above the rate; expiry never does |
| AuctionRate.RateNeverRises | src/bid-rates/bid-rates.service.ts:1303-1469 | In every run without a raising or undercutting direct write and without a placement over an unresolved expired offer, the rate never rises, and every fresh offer stays below it |
| AuctionRate.RateNeverRisesBetween | src/bid-rates/bid-rates.service.ts:2061-2069 | Between any two moments of such a run of a new bid the rate has not risen, and never exceeds the first one |
| AuctionRate.RateCanRise | src/bid-rates/bid-rates.service.ts:2416-2444 | A run in which the owner never writes directly and yet the rate rises: an expired low offer is resolved after a dearer one was placed |
| AuctionEffects.PriceTakenExactlyWhen | src/bid-rates/bid-rates.service.ts:1256-1469 | An offer is placed if and only if the bid takes bids, the user is in its chat, fewer than three offers are stamped within 240 seconds, the user is a +1 whose timer runs (or the owner while one runs) without an own offer younger than 240 seconds, and the price is below the rate and every offer of the window; the rate is written at once if and only if the owner asks while no +1 timer runs |
| AuctionEffects.PriceRefusals | src/bid-rates/bid-rates.service.ts:1256-1446 | Each of the nine refusals of a price has its own exact condition on the bid, the row and the clock |
| AuctionEffects.PriceEffect | src/bid-rates/bid-rates.service.ts:1325-1469 | A placed offer stores exactly the price, the second and the frozen voters in the one row; a direct write changes the bid's rate and clock and no row; a refusal changes nothing |
| AuctionEffects.SnapshotIsFrozen | src/bid-rates/bid-rates.service.ts:184-225 | The frozen voters: the owner and all whose timer runs but for the offerer, each once, pending, with their own +1 cycle |
| AuctionEffects.VoteTakenExactlyWhen | src/bid-rates/bid-rates.service.ts:1907-2006 | A vote is taken if and only if it is open to the voter: another's offer younger than 240 seconds, a pending entry of the voter's own cycle, no accept of theirs on another offer; it is a reject exactly if they say so |
| AuctionEffects.RejectEffect | src/bid-rates/bid-rates.service.ts:2036-2043 | A reject, by any voter, takes the offer out; every other row and the bid itself stay |
| AuctionEffects.PendingEffect | src/bid-rates/bid-rates.service.ts:2045-2066 | An accept that is not the last is marked in the ballot, drops every other offer and restarts the voter's timer |
| AuctionEffects.AcceptedEffect | src/bid-rates/bid-rates.service.ts:373-388 | The last accept makes the offer's rate official and leaves no offer |
| AuctionEffects.StoredWasPlaced | src/bid-rates/bid-rates.service.ts:1388-1400 | An offer found at the end of a run that began without it was placed in the run by its user, at that price and second |
| AuctionEffects.RejectedIsFinal | src/bid-rates/bid-rates.service.ts:2036-2043 | Over every run a rejected placement is never voted on, accepted or resolved: what is decided later was placed since |
| AuctionEffects.ResolveEffect | src/bid-rates/bid-rates.service.ts:2373-2487 | Nothing without an offer, refused within its 240 seconds; else the offer goes and its rate is taken if it is not above the official one |
| AuctionEffects.ArchiveEffect | src/bid-rates/bid-rates.service.ts:1043-1099 | Archived if and only if live and untouched for more than twelve hours |
| AuctionEffects.JoinEffect | src/bid-rates/bid-rates.service.ts:1580-1692 | Each answer of a join has its exact condition, chat membership included; who gets a row or a new cycle, and that nothing else changes |
| AuctionEffects.ExtendBidEffect | src/bid-rates/bid-rates.service.ts:1175-1238 | The card's quarter of an hour, and the refusals of strangers and of a run-out card |
| AuctionEffects.ExtendPlusOneEffect | src/bid-rates/bid-rates.service.ts:2160-2255 | Each refusal of a +1 extension, that of a stranger included, has its exact condition; else that one timer gains 900 seconds |
| AuctionVoting.FlagMeansVotePasses | src/bid-rates/bid-rates.service.ts:1810-1898 | In every state that satisfies the invariant a vote passes all its guards if and only if the offer is listed, its canVote flag is set, and it is not in its very last second |
| AuctionVoting.LastSecondRefused | src/bid-rates/bid-rates.service.ts:1930-1952 | In that second the vote is refused, whatever the flag says |
| AuctionVoting.OfferAcceptedExactlyWhen | src/bid-rates/bid-rates.service.ts:2008-2069 | A vote writes the official rate if and only if it is an accept that passes and every other entry of the ballot is already accepted |
| AuctionVoting.AcceptsWereCast | src/bid-rates/bid-rates.service.ts:1974-2053 | Every accept found in a stored offer was cast by that voter earlier in the run, through all the guards, on that very placement |
| AuctionVoting.AcceptedByEveryone | src/bid-rates/bid-rates.service.ts:2061-2069 | When a vote writes the rate, every other snapshot voter had accepted that very placement earlier in the run |
| AuctionVoting.BackedStep | src/bid-rates/bid-rates.service.ts:334-371 | One step neither moves an accept to another placement nor creates one that was not cast in it |
| AuctionVoting.RejoinAdvances | src/bid-rates/bid-rates.service.ts:1647-1669 | A re-join strictly advances the +1 cycle |
| AuctionVoting.CyclesNeverGoBackInRun | src/bid-rates/bid-rates.service.ts:615-644 | Over any run no +1 row disappears and no +1 cycle goes back |
| AuctionVoting.StaleVoterNeverVotes | src/bid-rates/bid-rates.service.ts:279-294 | Once a non-owner's cycle has passed a snapshot's stamp, no vote with that stamp passes in any continuation |
| AuctionTimers.ExtendBidExactlyWhen | src/bid-rates/bid-rates.service.ts:1189-1222 | The card can be extended if and only if the requester owns it, it is not archived, still running, and extended fewer than three times |
| AuctionTimers.CyclesEnd | src/bid-rates/bid-rates.service.ts:22-30 | A live card and every +1 cycle is over an hour after it began |
| AuctionTimers.ThreeExtendsPerCycle | src/bid-rates/bid-rates.service.ts:1202-1222 | However a run goes on, a card is extended at most three times in one cycle, fewer if it was extended before, and never while archived |
| AuctionTimers.ThreeExtendsPerPlusOneCycle | src/bid-rates/bid-rates.service.ts:2215-2240 | However a run goes on, a +1 timer is extended at most three times between a join, re-join or recorded accept of its user and the next |
| AuctionTimers.ArchivedNotExtended | src/bid-rates/bid-rates.service.ts:1043-1099 | No run extends an archived card within its cycle |
| AuctionTimers.ArchivedBySomeEvent | src/bid-rates/bid-rates.service.ts:1043-1099 | A bid found archived was archived by an event of the run and its clock has stood still since |
| AuctionTimers.PurgedExactlyWhen | src/bid-rates/bid-rates.service.ts:1105-1169 | The purge takes a bid if and only if the run archived it, it stayed archived, and that was more than 15 days ago |
| ExpiryRace.SysInvDoAll | src/bid-rates/bid-rates.service.ts:2373-2487 | Under every interleaving of resolver steps and other requests: stored offers are unclaimed placements, claims are unique, applied placements were claimed |
| ExpiryRace.ClaimedAndAppliedOnce | src/bid-rates/bid-rates.service.ts:2421-2444 | Each placement is claimed by at most one caller and applied at most once, only after it expired |
| ExpiryRace.ClaimsClearWhatTheyRead | src/bid-rates/bid-rates.service.ts:2421-2433 | If no user places twice in one second, a claim clears the very placement its caller read, never a newer one |
| ExpiryRace.ResolversAloneNeverRaise | src/bid-rates/bid-rates.service.ts:2416-2444 | While only resolvers run, the rate never exceeds its value at the start |
| ExpiryRace.SoloIsAtomic | src/bid-rates/bid-rates.service.ts:2373-2487 | A resolver with nothing in between does exactly what the atomic step does |
| ExpiryMinimum.LowestExactlyWhen | src/bid-rates/bid-rates.service.ts:2322-2346 | From any state without running resolvers and for any moment: every completed run of concurrent resolvers up to then ends at the lowest rate if and only if all offers at or below the official rate that have expired by then ask for one rate |
| ExpiryMinimum.OneRateIsEnough | src/bid-rates/bid-rates.service.ts:2406-2444 | With one such rate, however many resolvers interleave, the rate ends at the lowest of the old one and those of the resolved offers |
| ExpiryClaims.ClaimClearsAnotherExactlyWhen | src/bid-rates/bid-rates.service.ts:2421-2440 | A claim clears another placement than its caller has read if and only if the stored offer has the stamp that was read and is another placement |
| ExpiryClaims.ReplacementIsCleared | src/bid-rates/bid-rates.service.ts:2421-2444 | Whenever a user has re-placed within the second that a resolver has read, waiting four minutes, looking and claiming clears the newer offer, and a rate to be applied is the older one |
| ExpiryClaims.StaleClaimPossibleExactlyWhen | src/bid-rates/bid-rates.service.ts:2373-2440 | Once the second that was read is over, some continuation of any requests and resolvers makes the call clear another placement if and only if the user has re-placed within that second |
| ExpiryClaims.RejectedNeverClaimed | src/bid-rates/bid-rates.service.ts:2036-2043 | However resolvers and other requests interleave after a reject, the rejected placement is never claimed, applied or stored again |
| ExpiryStories.CrossingMissesMinimum | src/bid-rates/bid-rates.service.ts:2325-2346 | Whenever two expired offers at or below the official rate ask for different rates, two crossing resolvers apply both and leave the dearer one |
| ExpiryStories.SameSecondStory | src/bid-rates/bid-rates.service.ts:2421-2433 | A run in which a stale claim clears a newer offer of the same second and a rejected price becomes official |
| ExpirySweep.SweptOneMore | src/bid-rates/bid-rates.service.ts:2406-2444 | One more resolver on a partly swept bid leaves it swept of one more offer |
| ExpirySweep.SweptUnique | src/bid-rates/bid-rates.service.ts:2302-2367 | The result of a sweep does not depend on the order of the resolvers |
| BidRates.BidRatesService.Create | src/bid-rates/bid-rates.service.ts:834-976 | A new bid has its owner row, zero extensions and no offer, and satisfies the invariant |
| BidRates.BidRatesService.UpdateOffer | src/bid-rates/bid-rates.service.ts:334-343 | Only the one participant's offer changes |
| BidRates.BidRatesService.ClearOtherActiveOffers | src/bid-rates/bid-rates.service.ts:349-365 | All offers but one are dropped |
| BidRates.BidRatesService.WriteMainBidRate | src/bid-rates/bid-rates.service.ts:373-388 | The rate is written, a fresh card cycle starts, the bid is un-archived |
| BidRates.BidRatesService.ResetPlusOneParticipantTimer | src/bid-rates/bid-rates.service.ts:615-644 | A +1 cycle restarts; the owner row and missing rows are left alone |
| BidRates.BidRatesService.JoinByChatId | src/bid-rates/bid-rates.service.ts:1580-1692 | Refines the join step: every error, the owner slot, the running timer, the re-join and the new row |
| BidRates.BidRatesService.ExtendTime | src/bid-rates/bid-rates.service.ts:1175-1238 | Refines the card extension, with its four errors |
| BidRates.BidRatesService.ExtendParticipantTimeByChatId | src/bid-rates/bid-rates.service.ts:2160-2255 | Refines the +1 extension by the owner or by the user |
| BidRates.BidRatesService.AssertOfferPrice | src/bid-rates/bid-rates.service.ts:422-508 | Reports the first broken price rule, in the order of the checks |
| BidRates.BidRatesService.UpdateNewPrice | src/bid-rates/bid-rates.service.ts:1256-1469 | Refines the price step: every guard in order, the offer, the owner's offer and the direct write |
| BidRates.BidRatesService.FindActiveAcceptVoteLock | src/bid-rates/bid-rates.service.ts:301-317 | Finds an accept of the voter on a listed offer other than the excluded one if and only if there is one, and returns such an offer |
| BidRates.BidRatesService.ListRateVotersByBidId | src/bid-rates/bid-rates.service.ts:1810-1898 | Each listed offer with the viewer's vote and exactly the specified canVote flag |
| BidRates.BidRatesService.VoteOnOffer | src/bid-rates/bid-rates.service.ts:1907-2076 | Refines the vote step: every guard in order, reject, recorded accept, completed ballot |
| BidRates.BidRatesService.StoreAccept | src/bid-rates/bid-rates.service.ts:2045-2069 | The updates of an accept, and of the last one |
| BidRates.BidRatesService.ResolveExpiredOffer | src/bid-rates/bid-rates.service.ts:2373-2487 | Refines the resolve step |
| BidRates.BidRatesService.AutoAcceptExpiredOffer | src/bid-rates/bid-rates.service.ts:2263-2295 | The same for members of the chat only |
| BidRates.BidRatesService.ResolveExpiredOffersBatch | src/bid-rates/bid-rates.service.ts:2302-2367 | For every batch size and order each non-archived bid ends at the lowest of its rate and its expired offers; the counts add up and count the replies |
| BidRates.BidRatesService.ArchiveStaleBidRates | src/bid-rates/bid-rates.service.ts:1043-1099 | Exactly the idle live bids are archived, and counted |
| BidRates.BidRatesService.PurgeExpiredArchivedBidRates | src/bid-rates/bid-rates.service.ts:1105-1169 | Exactly the bids that are due disappear, and are counted |
| BidRates.BidRatesService.Remove | src/bid-rates/bid-rates.service.ts:982-1036 | The bid is gone, or reported missing; every other bid is as before |
| BidRates.SweepIs | src/bid-rates/bid-rates.service.ts:2325-2360 | A sweep one resolver at a time resolves every listed offer once, and finds none cleared already |
| BidRates.SweepLeavesNoneExpired | src/bid-rates/bid-rates.service.ts:2306-2320 | After a sweep no expired offer is left on a non-archived bid, and archived bids are untouched |
| UnreadCounters.ExactInEveryRun | src/chats/messages.service.ts:1463-1509 | In every run of atomic sends, dispatches, reads, room reads, read-alls, unreads and deletes with early joins, each counter is the number of messages from others that the participant has not read |
| UnreadCounters.ExactAfter | src/chats/messages.service.ts:1514-1549 | Each single operation keeps the counters exact |
| UnreadCounters.ExactAfterReadOne | src/chats/messages.service.ts:1301-1339 | Reading one message keeps the counters exact |
| UnreadCounters.ExactAfterUnreadOne | src/chats/messages.service.ts:1361-1458 | Marking one message unread keeps them exact |
| UnreadCounters.ExactAfterReadRooms | src/chats/messages.service.ts:1610-1693 | Reading any list of rooms keeps them exact |
| UnreadCounters.ExactAfterDelete | src/chats/messages.service.ts:1767-1820 | Deleting a message keeps them exact |
| UnreadCounters.ReadTakesOne | src/chats/messages.service.ts:1500-1509 | While they are exact the floor at zero never takes effect on a read |
| UnreadCounters.DeleteTakesOne | src/chats/messages.service.ts:1780-1820 | Nor on a delete |
| UnreadCounters.StaleReadExactWhen | src/chats/messages.service.ts:1301-1339 | A read whose look and write are apart keeps the counters exact if and only if nobody else's read came or went in between and its user had not been counted down already, or has nothing left to count |
| UnreadCounters.TwoReadsLoseOne | src/chats/messages.service.ts:1315-1338 | Two users who look before either writes: one read is lost though counted, for every message unread by both |
| UnreadCounters.SameReadTwice | src/chats/messages.service.ts:1315-1338 | One user reading a message twice at once is counted right if and only if nothing else is left to read |
| UnreadCounters.JoinExactWhen | src/chats/chat-rooms.service.ts:1466-1484 | A join keeps the counters exact if and only if the room holds nothing unread for the newcomer |
| UnreadCounters.ArchiveExactWhen | src/chats/messages-archive.service.ts:535-549 | Archiving keeps them exact if and only if no participant has one of the messages unread |
| UnreadCounters.LateReadExactWhen | src/chats/messages.service.ts:1557-1591 | A room-wide read keeps the counter exact if and only if nothing older than a driver's join is unread |
| MessageEffects.SendEffect | src/chats/messages.service.ts:271-335 | A sent message has been read by its sender alone; everybody else in the room counts one more and nothing else changes |
| MessageEffects.DispatchEffect | src/chats/messages.service.ts:363-412 | A dispatch message has been read by nobody; everybody else in the room counts one more |
| MessageEffects.SendAllowedExactlyWhen | src/chats/messages.service.ts:216-240 | Who may send: the list handed over decides if there is one, else the participant table |
| MessageEffects.ReadOneEffect | src/chats/messages.service.ts:1301-1339 | Exactly a first read by another than the sender adds the reader and takes one off, above zero; no other reader, message or member changes |
| MessageEffects.UnreadOneReplies | src/chats/messages.service.ts:1361-1458 | Each answer to marking a message unread has its exact condition |
| MessageEffects.UnreadOneEffect | src/chats/messages.service.ts:1361-1458 | Exactly that reader is taken out and counts one more; the read flag falls except in ordinary rooms |
| MessageEffects.DeleteEffect | src/chats/messages.service.ts:1767-1820 | The message is gone; exactly those of its room who had not read it count one less, above zero |
| MessageEffects.ReadRoomEffect | src/chats/messages.service.ts:1514-1591 | For every member, driver or not: the counter is zero and the member has read exactly the messages concerned in addition; nobody else's reads and counters change |
| MessageEffects.EverythingRead | src/chats/messages.service.ts:1514-1549 | After a room-wide read the member is among the readers of every message concerned |
| MessageEffects.ReadRoomsEffect | src/chats/messages.service.ts:1610-1693 | The same for every room of any list of rooms at once |
| MessageEffects.JoinEffect | src/chats/chat-rooms.service.ts:1466-1484 | A newcomer starts at zero; nobody else's row changes |
| Messages.MessagesService.SendMessage | src/chats/messages.service.ts:154-335 | Refines a send: empty, not a participant, or stored and counted for all others |
| Messages.MessagesService.CreateLoadDispatchSystemMessage | src/chats/messages.service.ts:363-412 | Refines the dispatch message, which nobody has read |
| Messages.MessagesService.MarkMessageAsRead | src/chats/messages.service.ts:1301-1339 | Refines reading one message |
| Messages.MessagesService.MarkMessageAsUnread | src/chats/messages.service.ts:1361-1458 | Refines marking one message unread, with its errors and the missing participant row |
| Messages.MessagesService.ReadRoomFor | src/chats/messages.service.ts:1514-1591 | Refines the single update of a room-wide read, and returns exactly the messages it changed |
| Messages.MessagesService.MarkAllMessagesAsReadByChatRooms | src/chats/messages.service.ts:1610-1693 | Refines room after room, and returns the rooms of the user and exactly the messages that changed |
| Messages.MessagesService.DeleteMessage | src/chats/messages.service.ts:1767-1869 | Refines a delete: gone already, not permitted, or removed and uncounted |
| IdempotentSend.OneMessagePerKey | src/chats/messages.service.ts:271-335 | However sends of one room, sender and client id are retried and raced: at most one message; all answers name it; one answer is no replay; everybody's counter counts it once |
| IdempotentSend.RunKeeps | src/chats/messages.service.ts:125-148 | The table and every call in flight stay consistent under every interleaving |
| IdempotentSend.AtMostOneCopy | prisma/schema.prisma:514 | The unique constraint leaves at most one message for a key, and the look-up finds it |
| IdempotentSend.SecondSenderCollides | prisma/schema.prisma:514 | In any room and for any client id, two senders who use it one after the other make the second send fail |
| IdempotentSend.CollisionExactlyWhen | prisma/schema.prisma:514 | A send ends in a collision error if and only if another sender of the room holds the client id; then its message does not exist |
| MessageSync.SyncFromAnchor | src/chats/messages.service.ts:1076-1177 | From a visible anchor the answer is exactly the next messages, and up to date only at the end |
| MessageSync.FreshClientIsCurrent | src/chats/messages.service.ts:1093-1124 | Without an anchor, or with one that is gone, the answer is the newest visible messages, as many as allowed, and the client is up to date with them |
| MessageSync.RoundsDeliverAll | src/chats/messages.service.ts:1017-1178 | n rounds deliver the next n times limit messages, each once, in order, for every limit and cutoff |
| MessageSync.SyncTerminates | src/chats/messages.service.ts:1017-1178 | The repetition ends; it says up to date if and only if everything has been delivered |
| MessageSyncTies.AnswersNextExactlyWhen | src/chats/messages.service.ts:1135-1151 | With stamps that may be shared, one answer is the next messages if and only if the anchor is the last of its stamp |
| MessageSyncTies.DeliversAllExactlyWhen | src/chats/messages.service.ts:1017-1178 | With shared stamps every later message is delivered, once and in order, if and only if no batch ends inside a run of messages of one stamp; else some message never comes |
| MessageSync.HiddenAnchorSkips | src/chats/messages.service.ts:1135-1151 | From an anchor older than the cutoff nothing is skipped if and only if no message carries the cutoff's own stamp |
| LoadChats.OneRoomPerLoadAndDriver | src/chats/chat-rooms.service.ts:1258-1374 | Under every interleaving of the single steps of creations, conversions, forks and attaches: throughout a run a LOAD room has one driver, live rooms of a load and driver are unique and no transaction is about to break that, if and only if each attach still finds true what it read, and no looked transaction of its pair, when it writes |
| LoadChats.StepKeepsExactlyWhen | src/chats/chat-rooms.service.ts:1123-1217 | Only the write of an attach can break that, and it does exactly when it is not safe |
| LoadChats.WithoutAttaches | src/chats/chat-rooms.service.ts:131-161 | Every run without attaches keeps it |
| LoadChats.AttachAtOnceBreaksExactlyWhen | src/chats/chat-rooms.service.ts:1319-1374 | An attach with nothing in between breaks it if and only if it takes effect, on a live room with a load, while a transaction of that load and driver has looked and not yet written |
| LoadChats.WriteAfterAttachDuplicates | src/chats/chat-rooms.service.ts:2381-2460 | Then the write of that transaction leaves two live rooms of the load and driver, for a creation, a fork and a conversion |
| LoadChats.OverlappingAttachesTwoDrivers | src/chats/chat-rooms.service.ts:1319-1374 | Two overlapping attaches of different drivers to any driverless LOAD room leave it with two drivers |
| LoadChats.OverlappingAttachesTwoRooms | src/chats/chat-rooms.service.ts:1319-1374 | Two overlapping attaches of one driver to two driverless live rooms of a load leave two rooms of that pair |
| LoadChats.AttachCanDuplicate | src/chats/chat-rooms.service.ts:1319-1374 | For every load with a live driverless room and every driver without a room, a creation and an attach can cross so that two live rooms remain |
| LoadChats.WriteMakesTheRoom | src/chats/chat-rooms.service.ts:2381-2460 | A transaction that writes leaves exactly one live room for its load and driver |
| CreateLoadChat.ChatRoomsService.ServeDriver | src/chats/chat-rooms.service.ts:2310-2646 | Reused, live room first, exactly if there is a room; converted exactly if selected with an OFFER room; a new or converted room holds exactly the driver and the staff; exactly the leftover or the losing OFFER rooms go; all else is unchanged |
| CreateLoadChat.ChatRoomsService.CreateLoadChat | src/chats/chat-rooms.service.ts:2144-2706 | Every driver ends with a LOAD room of the load; each new or converted one holds exactly its driver and the staff; which answer converts, exactly which OFFER rooms are gone, and that every other room is as it was |
| CreateLoadChat.AnswersDetermineRooms | src/chats/chat-rooms.service.ts:2310-2706 | The answers leave nothing open: they determine the rooms |
| StaffSync.KeysAfterSync | src/chats/chat-rooms.service.ts:2880-2920 | A room ends with exactly the desired keys and its unresolved ones if and only if no stale key was shared by two of its members |
| StaffSync.SyncMeetsTarget | src/chats/chat-rooms.service.ts:2820-3034 | With distinct keys it always does, keys stay distinct and drivers are untouched |
| StaffSync.SyncTwice | src/chats/chat-rooms.service.ts:2820-3034 | A second run changes nothing |
| StaffSync.RoomsAgree | src/chats/chat-rooms.service.ts:2840-3034 | With nothing unresolved all rooms of the load end with the same keys |
| StaffSync.StaffIsDesired | src/chats/chat-rooms.service.ts:2880-2920 | Where a key names one user they end with exactly the desired users |
| StaffSync.HideFlagsAfter | src/chats/chat-rooms.service.ts:2920-3000 | If somebody came or went, those asked for are hidden as the target says and the others as before; if nobody did, no flag changes |
| StaffSync.ResolveLoadChatStaffParticipants | src/chats/chat-rooms.service.ts:3142-3252 | Refuses ambiguous ids; otherwise desired and unresolved staff are exactly those asked for, and the administrators |
| StaffSync.IndexByKey | src/chats/chat-rooms.service.ts:2883-2901 | One current member under each key |
| StaffSync.LoadChatRooms.SyncRoom | src/chats/chat-rooms.service.ts:2880-3000 | One room is synced, and reported exactly if it changed |
| StaffSync.LoadChatRooms.SyncNonDriverParticipantsForLoad | src/chats/chat-rooms.service.ts:2820-3034 | Every room of the load is synced; exactly the changed ones are reported |
| AddDrivers.ChatRoomsService.ForkLoadChatWithDriver | src/chats/chat-rooms.service.ts:1066-1223 | The five refusals, each with its condition; else a live room of the load with the driver, created exactly if there was none, with the participants of the source who are no drivers |
| AddDrivers.ChatRoomsService.ForkAll | src/chats/chat-rooms.service.ts:1349-1364 | Driver after driver up to the first refusal; nothing but forks is added, and every answer names a live room of its driver |
| AddDrivers.ChatRoomsService.AddParticipants | src/chats/chat-rooms.service.ts:1319-1367 | Refused for a requester outside the room; else a room without a driver takes the first one exactly if no other live room of the load has them and no fork was refused; everything else is forked; with no other request in flight the uniqueness of rooms is kept |
| AddDrivers.QuietFork | src/chats/chat-rooms.service.ts:1161-1217 | A fork where no live room of the load has the driver keeps one driver per room and one live room per load and driver |
| MessageArchive.LostExactlyWhen | src/chats/messages-archive.service.ts:484-571 | Whatever fails while a day is archived, a message is lost if and only if the first check missed an existing file that the upload then replaced and the message was nowhere else |
| MessageArchive.DayKeepsRun | src/chats/messages-archive.service.ts:519-549 | With an exact check one more day, whatever fails in it, only moves rows into a new file of their room and day |
| MessageArchive.NothingLost | src/chats/messages-archive.service.ts:369-478 | Over a whole run no message is lost |
| MessageArchive.PartlyArchivedDayStays | src/chats/messages-archive.service.ts:436-441 | Once a day has its file, no run takes another message of that day out of the table |
| MessageArchive.NeverLost | src/chats/messages-archive.service.ts:369-571 | Over any sequence of archiving, restoring and sending, a message once stored stays stored with the same content |
| MessageArchive.RoundTrip | src/chats/messages-archive.service.ts:233-254 | Archiving, failed at any step, and a full restore give the room its messages back; exactly the unkept columns are blank |
| ArchiveService.GroupsPartition | src/chats/messages-archive.service.ts:748-784 | Grouping by day is a partition: every dated message is in one group, once |
| ArchiveService.RoomsAfterKeeps | src/chats/messages-archive.service.ts:425-467 | A run over all rooms, whatever fails and wherever it stops, is such a move; if nothing fails it is complete |
| ArchiveService.SmoothRunLeaves | src/chats/messages-archive.service.ts:436-447 | If nothing fails, a message is left in the table if and only if it is recent or its day had a file before |
| ArchiveService.InsertAdds | src/chats/messages-archive.service.ts:245-254 | Inserting with skipDuplicates changes no row and adds every missing one |
| ArchiveService.FirstsOnce | src/chats/messages-archive.service.ts:186-206 | Each id of the room is restored once, from its first copy |
| ArchiveService.RepliedIsRestore | src/chats/messages-archive.service.ts:233-266 | Whatever a restore answers, it only puts archived messages back |
| ArchiveService.RestoreCompleteExactlyWhen | src/chats/messages-archive.service.ts:168-206 | The room is complete again if and only if every message of an unlisted or unreadable file is there in another way |
| ArchiveService.MessagesArchiveService.GroupMessagesByDay | src/chats/messages-archive.service.ts:748-784 | The groups and their order, and the partition |
| ArchiveService.MessagesArchiveService.ArchiveMessagesForDay | src/chats/messages-archive.service.ts:484-571 | Upload, verify, delete: the stores after a failure at any of them |
| ArchiveService.MessagesArchiveService.ArchiveRoom | src/chats/messages-archive.service.ts:426-459 | Day after day; existing files are passed over; an error ends the room |
| ArchiveService.MessagesArchiveService.ArchiveOldMessages | src/chats/messages-archive.service.ts:369-478 | Room after room in batches; with exact checks the run loses nothing |
| ArchiveService.MessagesArchiveService.RestoreMessagesFromArchiveForChatRoom | src/chats/messages-archive.service.ts:151-266 | The answer and the table in each case; inserted and already present add up to the distinct messages found |
| ArchiveService.MessagesArchiveService.CollectFromFiles | src/chats/messages-archive.service.ts:186-206 | The first copy of each id, the misplaced messages counted |
| ArchiveService.MessagesArchiveService.InsertChunks | src/chats/messages-archive.service.ts:245-254 | Chunks of 300; a refused chunk leaves the earlier ones in |
| DrainQueue.HoldsAtEveryAwait | src/geocoding/here-playwright-reverse-geocode.service.ts:117-139 | At every await of every run: one drain loop exactly when something is left to do; jobs in arrival order |
| DrainQueue.FifoExactlyOnce | src/notifications/custom-push-background.service.ts:87-110 | The finished jobs are exactly the first to have arrived, each once and in order, even when jobs fail; at most one is active |
| DrainQueue.AllGetDone | src/offers/offer-post-create-background.service.ts:42-68 | Nothing is stranded: settling what is active finishes every job that has arrived |
| DrainQueue.JobQueue.Enqueue | src/offers/offer-post-create-background.service.ts:33-40 | Pushes and starts the loop unless one runs |
| DrainQueue.JobQueue.DrainFromStart | src/notifications/custom-push-background.service.ts:87-90 | Returns at once while a loop runs, else starts one |
| DrainQueue.JobQueue.DrainLoop | src/notifications/custom-push-background.service.ts:91-109 | Takes the next job, or ends; draining again is never needed |
| DrainQueue.JobQueue.JobSettled | src/geocoding/here-playwright-reverse-geocode.service.ts:121-138 | A settled job, well or badly, lets its loop go on |
| GeocodeCache.OneFetchPerDay | src/geocoding/here-playwright-reverse-geocode.service.ts:144-171 | However requests crowd in, a place is fetched again only when more than a day has passed since its last stored fetch |
| GeocodeCache.HereCache.GetCached | src/geocoding/here-playwright-reverse-geocode.service.ts:60-68 | Refines the look into the cache: a hit exactly while unexpired; an expired entry is dropped |
| GeocodeCache.HereCache.SetCached | src/geocoding/here-playwright-reverse-geocode.service.ts:70-75 | Stores the end of the active fetch: a later look at the place hits if and only if it comes within a day, and what every other place gets is unchanged |
| PushBroadcast.ScriptReachesAll | src/notifications/custom-push-background.service.ts:125-149 | The plan of a broadcast reaches every user once and in order, in batches of at most 25 with one pause between two |
| PushBroadcast.ProcessJob | src/notifications/custom-push-background.service.ts:112-154 | Follows the plan whatever fails, and counts every user as sent or failed |
| PushBroadcast.CountResults | src/notifications/custom-push-background.service.ts:134-143 | Counts the results of one batch |
| Presence.OfflineMeansLongGone | src/chats/chat.gateway.ts:258-306 | However sockets open and close, a user not shown online has had their last socket closed for five seconds with no registration since |
| Presence.OpenIsOnline | src/chats/chat.gateway.ts:168-176 | A user whose last socket is open is shown online |
| Presence.LastTimerWorksExactlyWhen | src/chats/chat.gateway.ts:273-281 | When all sockets are closed the remaining timer takes the user offline if and only if it is that of the socket registered last |
| Presence.StaysOnlineExactlyWhen | src/chats/chat.gateway.ts:258-306 | Over every run: when the last registered socket of a user has closed and no timer of theirs runs, they are still shown online if and only if another of their sockets closed while its timer was running |
| Presence.WrongOrderSticks | src/chats/chat.gateway.ts:258-306 | For every user and pair of sockets, closing the newer and within five seconds the older one leaves the user stuck online |
| Presence.LateCloseIsHarmless | src/chats/chat.gateway.ts:258-306 | That the socket closed last is the one registered last is not the condition: closing the older one after the timer has fired leaves the user offline |
| Presence.StuckStays | src/chats/chat.gateway.ts:273-281 | Otherwise the user stays online until they connect again |
| Presence.ChatGateway.HandleConnection | src/chats/chat.gateway.ts:168-176 | Refines a registration |
| Presence.ChatGateway.HandleDisconnect | src/chats/chat.gateway.ts:258-306 | Refines a disconnect: one timer per user, the newest |
| Presence.ChatGateway.OfflineTimeout | src/chats/chat.gateway.ts:273-281 | Refines the timer |
| PickupCalendar.NormalisedExactlyWhen | src/load-board-shipments/load-board-pickup.util.ts:33-41 | Normalising a date gives its fields back if and only if it is a real Gregorian date of the years from 100 on |
| PickupCalendar.CivilOfDay | src/load-board-shipments/load-board-pickup.util.ts:33-41 | Every real date is the date of its day |
| PickupCalendar.CivilIsReal | src/load-board-shipments/load-board-pickup.util.ts:33-41 | Every day has a real date, and its number is that day |
| PickupCalendar.DateAcceptedExactlyWhen | src/load-board-shipments/load-board-pickup.util.ts:15-44 | Text is accepted as a date if and only if it has the shape and spells such a date, and is read as that date |
| PickupCalendar.TrimPadded | src/load-board-shipments/load-board-pickup.util.ts:16 | Surrounding white space does not matter |
| PickupCalendar.HoursAcceptedExactlyWhen | src/load-board-shipments/load-board-pickup.util.ts:47-73 | Hours are accepted as a time of day if and only if they spell its one name on the twelve-hour clock |
| PickupCalendar.ClockNames | src/load-board-shipments/load-board-pickup.util.ts:66-70 | Each of the 24 hours has exactly one such name |
| PickupCalendar.DeadlineOrder | src/load-board-shipments/load-board-pickup.util.ts:88-102 | Deadlines are ordered exactly as year, month, day, hour and minute |
| PickupCalendar.EndOfDayIsLast | src/load-board-shipments/load-board-pickup.util.ts:104-106 | Without hours the window closes after every time of its day and before every later day |
| PickupCalendar.PassesExactlyWhen | src/load-board-shipments/load-board-pickup.util.ts:122-176 | Fields pass the check if and only if they are well formed and not expired; the unresolvable error is never reported |
| PickupCalendar.AcceptedThenExpired | src/load-board-shipments/load-board-pickup.util.ts:109-120 | An accepted window is not expired; once expired it stays expired and is never accepted again |
| PickupWindow.ExpiredExactlyWhen | src/load-board-shipments/load-board-pickup.util.ts:81-120 | A window has closed if and only if the moment, as a date and a time of day, comes after the hours field's time, else 23:59:59, on the latest date, or the earliest if the latest is blank, and these can be read |
| PickupWindow.RefusedExactlyWhen | src/load-board-shipments/load-board-pickup.util.ts:122-176 | Each refusal has its exact condition in the three texts: missing, unreadable, in the wrong order, past |
| PickupWindow.TrimMeans | src/load-board-shipments/load-board-pickup.util.ts:84 | Exactly white space trims to nothing, and trimming twice is trimming once |
| PickupWindow.AfterExactlyWhen | src/load-board-shipments/load-board-pickup.util.ts:109-120 | Milliseconds compare exactly as dates and times of day |
| PickupWindow.FirstDay | src/load-board-shipments/load-board-pickup.util.ts:33 | Day 0 of the clock is 1970-01-01 |
| PickupWindow.NextDay | src/load-board-shipments/load-board-pickup.util.ts:33 | Each day of the clock is followed by the next date of the calendar |

## Left out

- Chat texts, notifications, WebSocket emits, push delivery, mail, logging and HTTP controllers: they carry no state of
  the models.
- Tables are maps, a transaction is one step, the advisory lock is mutual exclusion, the object storage is a map from
  room and day to a file. Hash collisions of the advisory lock only make it coarser.
- Apart from the resolver of expired offers, the requests of the auction are atomic; races between two price requests,
  between two votes or between a vote and a price are not covered.
- The three offer columns of a participant row are one optional value, as every writer sets them together; malformed
  JSON in the votes column and non-finite rates are not modelled.
- BidRates.BidRatesService.JoinByChatId: does not model the missing user row, nor the unique-key violation of two simultaneous first joins.
- BidRates.BidRatesService.Create: does not model the validation of the route, nor the chat that is made beside the bid.
- BidRates.BidRatesService.ResolveExpiredOffersBatch: runs the resolvers of a chunk one after the other, where the source starts them
  together; what their interleaving adds is in module ExpiryRace.
- BidRates.SweepIs: is about resolvers one after the other, as above.
- UnreadCounters.ExactInEveryRun: every operation is one step, where the source reads, deletes, marks unread and reads rooms
  in separate statements. For the read of one message the lemmas about stale reads say what that adds; overlapping unreads,
  deletes and room-wide reads are not covered.
- Messages.MessagesService.MarkMessageAsRead: is one atomic step; see the lemmas about stale reads.
- Messages.MessagesService.MarkMessageAsUnread: is one atomic step.
- Messages.MessagesService.MarkAllMessagesAsReadByChatRooms: no room fails; in the source an error passes over its room, which
  between the update and the reset of the counter would leave them apart.
- Messages.MessagesService.DeleteMessage: is one atomic step; in the source the counters and the row change in separate statements.
- Messages.MessagesService.SendMessage: does not model the attachments, the reply data, nor the receiver of a direct message.
- MessageSync.RoundsDeliverAll: the messages do not change between rounds and have distinct creation stamps (shared ones are in
  module MessageSyncTies, with one fixed order of the sharers); reactions, the unread count and
  the hasMore flag of an answer are not modelled.
- IdempotentSend.OneMessagePerKey: a message that is deleted between two retries, which are then two messages, is not modelled.
- LoadChats.OneRoomPerLoadAndDriver: the look of an attach is taken to see any other live room, where the source looks at one of
  them, which differs only when two are there already. Rooms are not un-archived, roles do not change, and no LOAD room is made by the generic room
  creation, all of which can break it; a conversion finds the OFFER room as it was read before the transaction.
- CreateLoadChat.ChatRoomsService.ServeDriver: does not model room names, companies, hide flags and join dates, nor the early look-up that saves a transaction.
- CreateLoadChat.ChatRoomsService.CreateLoadChat: the drivers are served from a table without other transactions in flight; the interleavings are those
  of module LoadChats.
- AddDrivers.ChatRoomsService.AddParticipants: does not model the adding of staff, rooms of other types, and the renaming of
  the room; its interleavings are those of module LoadChats.
- StaffSync.ResolveLoadChatStaffParticipants: the roles of a request are DRIVER or not; the missing role and the exclusion of the
  request's own drivers, who are no staff, are not modelled.
- StaffSync.LoadChatRooms.SyncRoom: the database transaction of a room is one step.
- ArchiveService.MessagesArchiveService.ArchiveOldMessages: one run at a time, with no message changed between its query and its deletions; two overlapping
  runs with different cutoffs are not covered. The counts it logs, the pauses between batches and the yearly cleanup of
  archives are not modelled.
- ArchiveService.MessagesArchiveService.RestoreMessagesFromArchiveForChatRoom: the listing arrives sorted, and its parsing of file names is not modelled.
- MessageArchive.NeverLost: users neither edit nor delete messages during a run of changes; a deleted message that is also in a file
  would come back with a restore.
- GeocodeCache.OneFetchPerDay: a job that hits the cache is answered in the turn in which its place in the queue comes; the rounding of
  coordinates and the browser are not modelled.
- PushBroadcast.ProcessJob: the query for the recipients is a parameter.
- Presence.ChatGateway.HandleConnection: the check of the token and everything after the registration are not modelled.
- PickupCalendar.HoursAcceptedExactlyWhen: lower-casing is that of ASCII, which the accepted texts need.
- PickupCalendar.PassesExactlyWhen: the New York wall clock is the parameter `now`.
- Auth, tokens, role tables, geocoding providers, import scripts, templates, version comparison, route formatting and
  device rows: input and output, table look-ups or small utilities that would only add easy members.
