# Username and nickname tracking of the yagpdb logs plugin, in Dafny

This project models the pipeline in `logs/plugin_bot.go` that records the
usernames and guild nicknames of Discord users, and the handler that flags
deleted messages. It proves properties of that model.

The pipeline has these parts:

- **Change detectors** (`CheckUsername`, `CheckNickname`). Each reads the
  latest stored row (`order by id desc limit 1`). It appends a row only when
  the value changed. A nickname is not stored when the first value seen is
  empty.
- **Batch committer** (`ProcessBatch`). Inside one transaction it does three
  things in order:
  - resolves the logging configuration of each guild once, users' guilds
    before members' guilds;
  - checks every queued presence user whose guild has username logging on;
  - checks every queued member whose guild has either logging on.
  Any error stops the batch and rolls the transaction back.
- **Accumulator** (`EvtProcesser`). One loop owns two queues: presence users
  and members. It sorts incoming events into them. On each timer tick it hands
  both queues to the committer, and empties them only if the batch committed.
- **Presence pre-filter** (`HandlePresenceUpdate`). It drops a presence
  update only when the bot's cached member snapshot is complete and agrees
  with the update.
- **Deletion marker** (`HandleMsgDelete`, `markLoggedMessageAsDeleted`). It
  sets the deleted flag of each logged message named by a delete or
  bulk-delete event.

The database is modelled in memory as append-only histories: user →
sequence of usernames, and (user, guild) → sequence of nicknames. The latest
value is the last element. Failures are inputs, not effects:

- each check site of a batch has a `DbFault`: healthy, failed read, or failed
  insert;
- the config resolver is a function from guild to an optional config, where
  no config means the lookup failed;
- the transaction of a batch may fail to begin or fail to commit;
- each deletion update is told whether it fails.

Files:

- `entities.dfy`: users, members, configs, events, errors.
- `history.dfy`: one history and what repeated observations do to it.
- `store.dfy`: the detectors on a store value, and the `Tx` and `Database`
  classes.
- `configs.dfy`: batch config resolution.
- `batch.dfy`: `ProcessBatch` and its properties.
- `accumulator.dfy`: the `EvtProcessor` class and the loop.
- `presence.dfy`: the pre-filter.
- `deletion.dfy`: the deletion marker.

The members loop of `ProcessBatch` reads both flags of the member's guild
(lines 694-700) but skips the member only when both are off (line 702). Past
that test it runs the username check and the nickname check unconditionally
(lines 706-713). So each flag alone turns on both checks for members, while
for queued presence users the username flag alone decides (lines 672-676).
The model follows the code. `Batch.MemberUsernameIgnoresUsernameFlag` shows
a member in a guild with only nickname logging on getting a username row.
`Batch.MemberNicknameIgnoresNicknameFlag` shows a member in a guild with only
username logging on getting a nickname row.

`ProcessBatch` runs the users loop (lines 669-686) to the end before the
members loop (lines 689-715). So within one tick, presence users are
recorded before members, whatever the order in which the events arrived.
`Batch.BatchUsernames` states this for any user of a batch whose body completes: the new
history observes the user's logged presence usernames first, then the user's
logged member usernames. As a result, the latest stored username can be older
than the latest event. `Accumulator.PresenceBeforeMembers` shows a member
update "B" that arrives before a presence update "C", on a stored "A",
leaving "A", "C", "B".

## Model

| member | source | states |
|---|---|---|
| History.UsernameAfter | logs/plugin_bot.go:383-411 | defines one healthy username observation on one history: no change when the latest equals the observed value, otherwise the value is appended |
| History.NicknameAfter | logs/plugin_bot.go:413-445 | defines one healthy nickname observation: no change for "" on an empty history or for a value equal to the latest, otherwise the value is appended |
| History.UsernameAfterAppends | logs/plugin_bot.go:383-411 | one username observation appends at most the observed value, never rewrites earlier rows, leaves the observed value latest, and appends exactly when there is no row or the latest differs |
| History.NicknameAfterAppends | logs/plugin_bot.go:413-445 | one nickname observation appends at most the observed value, exactly when (no row and non-empty nickname) or (a row whose latest value differs) |
| History.UsernameAfterIdempotent | logs/plugin_bot.go:388-391 | observing the same username twice in a row changes nothing the second time |
| History.NicknameAfterIdempotent | logs/plugin_bot.go:422-425 | observing the same nickname twice in a row changes nothing the second time |
| History.UsernameAfterKeepsNoAdjacentDuplicates | logs/plugin_bot.go:388-405 | a username observation never creates two equal adjacent rows |
| History.NicknameAfterKeepsInvariant | logs/plugin_bot.go:417-439 | a nickname observation keeps both no adjacent duplicates and no empty first row |
| History.CompressNoAdjacentDuplicates | logs/plugin_bot.go:388-405 | collapsing runs of a sequence leaves no two equal adjacent values |
| History.ObserveUsernamesConcat | logs/plugin_bot.go:383-411 | observing two sequences of usernames one after the other is observing their concatenation |
| History.ObserveUsernamesAfter | logs/plugin_bot.go:383-411 | observations after a known latest value append the distinct consecutive values of the observations, less the value already stored |
| History.ObserveUsernamesFromNothing | logs/plugin_bot.go:383-411 | from no rows, the username history is exactly the distinct consecutive usernames observed, with no adjacent duplicates |
| History.ObserveNicknamesLikeUsernames | logs/plugin_bot.go:413-445 | once a nickname row exists, nicknames are recorded exactly like usernames (a change back to "" included) |
| History.ObserveNicknamesFromNothing | logs/plugin_bot.go:413-445 | from no rows, the nickname history is the distinct consecutive nicknames after the first non-empty one; its first row is never empty and it has no adjacent duplicates |
| Store.UsernameCheck | logs/plugin_bot.go:383-411 | defines CheckUsername on the listings for a given store behaviour, in the branch order of the code |
| Store.NicknameCheck | logs/plugin_bot.go:413-445 | defines CheckNickname on the listings for a given store behaviour, in the branch order of the code |
| Store.UsernameCheckCases | logs/plugin_bot.go:383-411 | CheckUsername appends exactly on a healthy store and a changed username; a read error is swallowed without inserting; only a failed insert of a changed username is reported; nicknames are never touched |
| Store.UsernameCheckOthers | logs/plugin_bot.go:383-411 | a username check of one user leaves every other user's username history unchanged |
| Store.NicknameCheckCases | logs/plugin_bot.go:413-445 | CheckNickname: no row and "" stores nothing; an equal latest is a no-op; a failed read is returned without inserting; a failed insert of a change is reported; otherwise the nickname is appended; usernames are never touched |
| Store.UsernameCheckKeepsStore | logs/plugin_bot.go:383-411 | CheckUsername keeps the store invariants and only appends |
| Store.NicknameCheckKeepsStore | logs/plugin_bot.go:413-445 | CheckNickname keeps the store invariants and only appends |
| Store.HealthyUsernameChecks | logs/plugin_bot.go:383-411 | repeated healthy CheckUsername calls record the observed usernames in turn; from no rows, exactly their distinct consecutive values |
| Store.HealthyNicknameChecks | logs/plugin_bot.go:413-445 | repeated healthy CheckNickname calls record the observed nicknames in turn; from no rows, the distinct consecutive values after the first non-empty one |
| Store.Tx.constructor | logs/plugin_bot.go:624 | the transaction starts from the current listings |
| Store.Tx.CheckUsername | logs/plugin_bot.go:383-411 | the in-place check returns the error and leaves the listings that the store-level UsernameCheck gives |
| Store.Tx.CheckNickname | logs/plugin_bot.go:413-445 | the in-place check returns the error and leaves the listings that the store-level NicknameCheck gives |
| Configs.Distinct | logs/plugin_bot.go:636-666 | defines the guilds the resolution loops visit: each guild of the list at its first appearance |
| Configs.ConfigsOf | logs/plugin_bot.go:636-666 | defines the config slice the resolution loops build: the resolver's config of each visited guild, in order |
| Configs.DistinctMembers | logs/plugin_bot.go:636-666 | the guilds that are resolved are exactly the guilds the batch refers to |
| Configs.DistinctNoDuplicates | logs/plugin_bot.go:638-642 | no guild is resolved twice |
| Configs.DistinctFirstAppearance | logs/plugin_bot.go:636-666 | the resolved guilds come in order of their first appearance in the users list followed by the members list |
| Configs.ConfigFor | logs/plugin_bot.go:672-680 | the config lookup finds nothing exactly when no config carries the guild, otherwise a config of that guild from the list |
| Configs.FindConfig | logs/plugin_bot.go:694-700 | the loop over configs finds the first config of the guild, as ConfigFor |
| Configs.FirstUnresolved | logs/plugin_bot.go:644-647 | the position of the first guild whose config cannot be resolved, with all earlier ones resolved |
| Configs.ConfigForResolved | logs/plugin_bot.go:636-680 | after resolution, looking up a queued guild gives the resolver's config, and looking up any other guild gives nothing |
| Configs.AppendConfigs | logs/plugin_bot.go:636-666 | one labelled resolution loop: on success the calls so far are the distinct guilds in order and the configs are theirs; on failure the calls end at the first guild that failed |
| Configs.ResolverCallsFacts | logs/plugin_bot.go:636-666 | the resolver is called at most once per guild, only for queued guilds, in first-appearance order, and for every queued guild when all resolve |
| Configs.ConfigsOfUniqueGuilds | logs/plugin_bot.go:636-666 | the configs of distinct guilds from a resolver that answers for the guild asked about carry pairwise distinct guild IDs |
| Configs.ResolveConfigs | logs/plugin_bot.go:636-666 | resolution fails exactly when some queued guild fails to resolve, labels the error users_configs or members_configs by the failing guild's list, and otherwise returns one config per distinct guild, no two configs for the same guild |
| Batch.UsersFrom | logs/plugin_bot.go:669-686 | defines the users loop from a position on: skip a user whose guild has username logging off, otherwise run the username check and stop on its error |
| Batch.MembersFrom | logs/plugin_bot.go:689-715 | defines the members loop from a position on: skip a member whose guild has both loggings off, otherwise run the username check and then the nickname check, stopping on either error |
| Batch.BatchSpec | logs/plugin_bot.go:635-720 | defines the transaction body: resolve the configs, then the users loop, then the members loop |
| Batch.TxOutcome | logs/plugin_bot.go:621-721 | defines the batch around its body: a transaction that fails to begin runs nothing, a failed body is its error, a body that succeeded commits unless the commit fails |
| Batch.TxOutcomeCases | logs/plugin_bot.go:621-721 | a batch commits exactly when the transaction begins and commits and its body succeeds, and then commits the body's listings; otherwise its error is the begin error, the body's error or the commit error |
| Batch.ProcessBatch | logs/plugin_bot.go:621-721 | a failed batch (begin, body or commit) returns its error and leaves the database as it was; a successful one commits the listings of the body; message flags are untouched; the resolver calls are those of the body, none when the transaction does not begin |
| Batch.CheckUsers | logs/plugin_bot.go:669-686 | the users loop on the transaction reaches exactly the outcome of the users phase: its error on failure, its listings on success |
| Batch.CheckMembers | logs/plugin_bot.go:689-715 | the members loop on the transaction reaches exactly the outcome of the members phase: its error on failure, its listings on success |
| Batch.UsersFromKeepsStore | logs/plugin_bot.go:669-686 | the users phase keeps the store invariants, only appends, and never writes a nickname |
| Batch.MembersFromKeepsStore | logs/plugin_bot.go:689-715 | the members phase keeps the store invariants and only appends |
| Batch.BatchKeepsStore | logs/plugin_bot.go:621-721 | a batch body that completes leaves no adjacent duplicate usernames or nicknames and no empty first nickname, and only adds rows |
| Batch.UsersFromUsernameGate | logs/plugin_bot.go:672-676 | queued users of a guild with username logging off are not checked |
| Batch.MembersFromUsernameGate | logs/plugin_bot.go:702-704 | members of a guild with both loggings off add no username row |
| Batch.MembersFromNicknameGate | logs/plugin_bot.go:702-704 | members of a guild with both loggings off add no nickname row |
| Batch.UsersFromKeepsNicknames | logs/plugin_bot.go:669-686 | presence users never write a nickname |
| Batch.BatchConfigs | logs/plugin_bot.go:636-680 | in a resolved batch, every queued guild's lookup finds the resolver's config |
| Batch.BatchUsernameGate | logs/plugin_bot.go:669-715 | when every queued user of u is in a guild with username logging off, and every member of u is in a guild with both loggings off, no username row is added for u |
| Batch.BatchNicknameGate | logs/plugin_bot.go:689-715 | in a guild with both loggings off, no nickname row is added |
| Batch.UsersFromFailure | logs/plugin_bot.go:682-685 | the users phase fails only with user username check, and only at a checked user whose insert failed |
| Batch.UsersFromSucceeds | logs/plugin_bot.go:669-686 | without a failed insert the users phase completes: failed reads are swallowed |
| Batch.MembersFromFailure | logs/plugin_bot.go:706-713 | the members phase fails only at a checked member: with members username check after a failed insert, or with members nickname check after a failed read or insert |
| Batch.MembersFromSucceeds | logs/plugin_bot.go:689-715 | without failed inserts or failed nickname reads the members phase completes |
| Batch.BatchSucceeds | logs/plugin_bot.go:635-720 | the body of a batch runs to the end when every queued guild resolves and no insert or nickname read fails |
| Batch.BatchCommits | logs/plugin_bot.go:621-721 | under those conditions a transaction that begins and commits commits the body's listings |
| Batch.BatchFailure | logs/plugin_bot.go:644-647 | every failed batch names a real cause: an unresolved guild of the right list, a failed insert, or a failed nickname read |
| Batch.FirstMemberEvent | logs/plugin_bot.go:689-715 | a member event on an empty store, in a guild with either logging on, records exactly its username and, only if non-empty, its nickname |
| Batch.RepeatedUsername | logs/plugin_bot.go:388-391 | the batch body of a presence update repeating the latest stored username completes without adding a row, whatever the store does (by `Batch.TxOutcomeCases` the batch commits the listings of that body exactly when the transaction begins and commits) |
| Batch.ClearedNickname | logs/plugin_bot.go:417-439 | a member whose stored nickname was non-empty and is now "" gets an empty nickname row appended |
| Batch.UsersFromObserves | logs/plugin_bot.go:669-686 | healthy checks of queued users of one user record their usernames in turn |
| Batch.MembersFromObserves | logs/plugin_bot.go:689-715 | healthy checks of members of one user in one guild record their usernames and nicknames in turn |
| Batch.BatchObservesUsernames | logs/plugin_bot.go:621-721 | the batch body of presence updates of one user completes and records the observed usernames in turn; from no rows, exactly their distinct consecutive values (by `Batch.TxOutcomeCases` the batch commits the listings of that body exactly when the transaction begins and commits) |
| Batch.LoggedUserNames | logs/plugin_bot.go:669-686 | defines the usernames of one user's queued presence users whose guild has username logging on, in queue order |
| Batch.LoggedMemberNames | logs/plugin_bot.go:689-715 | defines the usernames of one user's queued members whose guild has either logging on, in queue order |
| Batch.UsersFromUsernames | logs/plugin_bot.go:669-686 | a users loop that runs to the end, with the user's checks on a healthy store, leaves that user's history as the observation of its logged presence usernames in queue order |
| Batch.MembersFromUsernames | logs/plugin_bot.go:689-715 | a members loop that runs to the end, with the user's username checks on a healthy store, leaves that user's history as the observation of its logged member usernames in queue order |
| Batch.BatchUsernames | logs/plugin_bot.go:621-721 | for any user of a batch whose body completes, with healthy username checks, the new history observes its logged presence usernames and then its logged member usernames, whatever the arrival order |
| Batch.MembersAfterUsers | logs/plugin_bot.go:669-715 | with "A" stored, a batch of presence username "C" and member username "B" in a guild with both logging flags on has a body that completes and stores "A", "C", "B", not "A", "B", "C" |
| Batch.BatchObservesNicknames | logs/plugin_bot.go:621-721 | the batch body of members of one user in a guild with nickname logging on completes and records the observed nicknames in turn; from no rows, with a non-empty first row and no adjacent duplicates (by `Batch.TxOutcomeCases` the batch commits the listings of that body exactly when the transaction begins and commits) |
| Batch.MemberUsernameIgnoresUsernameFlag | logs/plugin_bot.go:702-709 | with username logging off and nickname logging on, a member's username is still recorded |
| Batch.MemberNicknameIgnoresNicknameFlag | logs/plugin_bot.go:702-713 | with nickname logging off and username logging on, a member's non-empty nickname is still recorded |
| Accumulator.EventUsers | logs/plugin_bot.go:592-598 | defines what one event adds to the queued users |
| Accumulator.EventMembers | logs/plugin_bot.go:599-604 | defines what one event adds to the queued members |
| Accumulator.Classify | logs/plugin_bot.go:592-605 | a presence update is queued as its guild and user unless its username is empty; the three member events queue their member; other events queue nothing; no event lands in both queues |
| Accumulator.UsersOfAppend | logs/plugin_bot.go:598 | the queued users of concatenated streams are the concatenated queued users (arrival order) |
| Accumulator.MembersOfAppend | logs/plugin_bot.go:599-604 | the queued members of concatenated streams are the concatenated queued members (arrival order) |
| Accumulator.PresenceBeforeMembers | logs/plugin_bot.go:669-715 | a member update "B" that arrives before a presence update "C" queues into a batch whose body, on a stored "A", completes and stores "A", "C", "B": presence users are recorded before members |
| Accumulator.MembersOfFromEvents | logs/plugin_bot.go:599-604 | every queued member is the member of a delivered event |
| Accumulator.Step | logs/plugin_bot.go:589-617 | defines one iteration of the loop: an event is queued; a tick runs the batch and empties the queues only when it committed |
| Accumulator.RunSpec | logs/plugin_bot.go:589-618 | defines the loop over a sequence of events and ticks as repeated iterations |
| Accumulator.QueuesAccounted | logs/plugin_bot.go:589-618 | defines where the queued events stand after a run: either no tick committed (`NeverCommitted`) and the queues grew by every delivered event, or some tick k is the last that committed (`LastCommit`) and the queues hold exactly the events delivered after it |
| Accumulator.RunQueues | logs/plugin_bot.go:589-618 | no event is lost and none is sent twice: after any run, either no tick committed and the queues hold the old queues plus every event delivered since, or the queues hold exactly the events delivered after the last tick that committed |
| Accumulator.RunKeepsStore | logs/plugin_bot.go:589-618 | across any run the store keeps its invariants and only gains rows |
| Accumulator.EvtProcessor.constructor | logs/plugin_bot.go:584-585 | both queues start empty |
| Accumulator.EvtProcessor.Receive | logs/plugin_bot.go:591-605 | an event appends its classification to the queues |
| Accumulator.EvtProcessor.Tick | logs/plugin_bot.go:606-616 | a tick runs the batch on the queues; when it committed both queues are empty, when it failed (also at begin or commit) queues and listings are exactly as before |
| Accumulator.EvtProcessor.Run | logs/plugin_bot.go:589-618 | the loop over a sequence of events and ticks ends in the state of the loop specification |
| Presence.ForwardPresence | logs/plugin_bot.go:315-343 | defines the pre-filter's decision, in the order of the code's checks |
| Presence.DroppedExactly | logs/plugin_bot.go:315-343 | a presence update is dropped exactly when the guild and a full member snapshot exist, the username is empty or equal, and the nickname is equal |
| Presence.FailOpen | logs/plugin_bot.go:317-330 | without a guild or a full member snapshot the update is forwarded |
| Presence.ChangeForwarded | logs/plugin_bot.go:332-342 | a non-empty username or a nickname differing from the snapshot is forwarded |
| Presence.DropLosesNothing | logs/plugin_bot.go:315-343 | when the snapshot agrees with the stored username, the dropped update, had it been queued, would have gone through the batch body without adding a row |
| Presence.PresenceStoresNoNickname | logs/plugin_bot.go:598 | a forwarded presence update never yields a nickname row: the accumulator keeps only its guild and user |
| Deletion.MarkOne | logs/plugin_bot.go:309-313 | defines a successful update of one message: the flag of its logged row is set, an ID without a row matches nothing |
| Deletion.MarkFrom | logs/plugin_bot.go:292-307 | defines the handler over the IDs of an event from a position on, a failed update leaving the flags as they are |
| Deletion.MarkOneExact | logs/plugin_bot.go:309-313 | marking a message sets its flag and leaves every other row and the set of rows unchanged |
| Deletion.MarkOneIdempotent | logs/plugin_bot.go:309-313 | marking twice equals marking once |
| Deletion.MarkFromExact | logs/plugin_bot.go:301-306 | the bulk form sets the flag of every logged message whose update succeeded, whatever failed before, and keeps every other flag and row |
| Deletion.MarkFromIdempotent | logs/plugin_bot.go:292-307 | handling the same delete event twice gives the state of handling it once |
| Deletion.MarkFromMonotone | logs/plugin_bot.go:292-307 | a set deleted flag stays set |
| Deletion.BulkContinuesAfterFailure | logs/plugin_bot.go:301-306 | flags 1-4 false, bulk [1, 2, 3] with the first update failing: 2 and 3 become true, 1 and 4 stay false |
| Deletion.MarkLoggedMessageAsDeleted | logs/plugin_bot.go:309-313 | a failed update returns its error and changes nothing; a successful one marks the message |
| Deletion.HandleMsgDelete | logs/plugin_bot.go:292-307 | every ID of a delete or bulk-delete event is marked in turn, a failure only skipping its own ID |

## Left out

- The commands (`cmdLogs`, `cmdWhois`, `cmdUsernames`, `cmdNicknames`) are left out. They format embeds and text and call code not in this model.
- `queueEvt`, the channel and the ticker are left out because their point is concurrency. `Accumulator.EvtProcessor.Run` takes the order in which events and ticks reach the loop as its input.
- `common.SqlTX` is not part of this model. Its two failures, a transaction that does not begin and a commit that fails, are an input (`Batch.TxFault`), and both leave the database as it was.
- Failing to prepare the two statements of `ProcessBatch` (lines 625-633) is not modelled. That error happens before any read or write, and it rolls back like every other batch error.
- The internals of `GetConfigCached` are not modelled. It is a resolver function, assumed to return a config for the guild asked about (`Configs.ResolverSound`).
- The commented-out bulk checks and `HandleGC`/`EvtProcesserGCs` are left out. They are dead code or only drain a channel.
- Logging and timing output are left out.
- SQL NULL values in listings are not modelled. Stored usernames and nicknames are plain strings.
- Message rows are a map from ID to a deleted flag. The other columns of a logged message are not modelled.
- A `Tx` copies the listings at the start of a batch. Concurrency with other writers is not modelled.
