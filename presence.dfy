/**
 * HandlePresenceUpdate: the pre-filter in front of the accumulator. A
 * presence update is forwarded unless the bot's state already holds a full
 * snapshot of the member that agrees with it; when in doubt it is forwarded.
 */
module Presence {
  import opened Wrappers
  import opened Entities
  import opened History
  import opened Store
  import opened Configs
  import opened Batch
  import opened Accumulator

  /** The bot's cached view of one member: which parts were seen, and their values. */
  datatype MemberState = MemberState(presenceSet: bool, memberSet: bool, username: string, nick: string)

  /** The bot's cached view of one guild: its members by user ID. */
  datatype GuildState = GuildState(members: map<UserId, MemberState>)

  /** Lines 315-343: whether the presence update is queued, given the guild snapshot, if any. */
  predicate ForwardPresence(p: Presence, gs: Option<GuildState>)
  {
    if gs.None? then true
    else if p.user.id !in gs.value.members then true
    else
      var ms := gs.value.members[p.user.id];
      if !ms.presenceSet || !ms.memberSet then true
      else if p.user.username != "" && p.user.username != ms.username then true
      else p.nick != ms.nick
  }

  /**
   * The update is dropped exactly when the guild and a full snapshot of the
   * member exist, the incoming username is empty or equal to the snapshot's,
   * and the nickname equals the snapshot's.
   */
  lemma DroppedExactly(p: Presence, gs: Option<GuildState>)
    ensures !ForwardPresence(p, gs) <==>
            && gs.Some?
            && p.user.id in gs.value.members
            && gs.value.members[p.user.id].presenceSet
            && gs.value.members[p.user.id].memberSet
            && (p.user.username == "" || p.user.username == gs.value.members[p.user.id].username)
            && p.nick == gs.value.members[p.user.id].nick
  {
  }

  /** Without a guild snapshot, or without a full member snapshot, the update is always forwarded. */
  lemma FailOpen(p: Presence, gs: Option<GuildState>)
    requires gs.None? || p.user.id !in gs.value.members ||
             !gs.value.members[p.user.id].presenceSet || !gs.value.members[p.user.id].memberSet
    ensures ForwardPresence(p, gs)
  {
  }

  /** A username or nickname that differs from a full snapshot is forwarded. */
  lemma ChangeForwarded(p: Presence, gs: GuildState)
    requires p.user.id in gs.members
    requires (p.user.username != "" && p.user.username != gs.members[p.user.id].username) ||
             p.nick != gs.members[p.user.id].nick
    ensures ForwardPresence(p, Some(gs))
  {
  }

  /**
   * Dropping is safe when the snapshot agrees with the stored latest
   * username: had the update been queued, its batch body would have
   * completed without adding a row, whatever the store did.
   */
  lemma DropLosesNothing(db: Listings, p: Presence, gs: GuildState, resolve: Resolver, faults: Faults)
    requires !ForwardPresence(p, Some(gs))
    requires p.user.username != ""
    requires UsernameHistory(db, p.user.id) != [] && Last(UsernameHistory(db, p.user.id)) == gs.members[p.user.id].username
    requires resolve(p.guildId).Some?
    ensures UsersOf([PresenceUpdate(p)]) == [UserGuildPair(p.guildId, p.user)]
    ensures BatchSpec(db, UsersOf([PresenceUpdate(p)]), [], resolve, faults) == Done(db)
  {
    assert [PresenceUpdate(p)][..0] == [];
    RepeatedUsername(db, UserGuildPair(p.guildId, p.user), resolve, faults);
  }

  /**
   * A forwarded presence update only ever reaches the username check: the
   * accumulator keeps its guild and user, not its nickname, so no nickname
   * row comes from it.
   */
  lemma PresenceStoresNoNickname(db: Listings, p: Presence, resolve: Resolver, faults: Faults)
    requires BatchSpec(db, UsersOf([PresenceUpdate(p)]), [], resolve, faults).Done?
    ensures BatchSpec(db, UsersOf([PresenceUpdate(p)]), [], resolve, faults).after.nicknames == db.nicknames
  {
    var users := UsersOf([PresenceUpdate(p)]);
    var d := BatchGuilds(users, []);
    var configs := ConfigsOf(d, resolve);
    UsersFromKeepsNicknames(db, users, configs, faults, 0);
    assert MembersFrom(UsersFrom(db, users, configs, faults, 0).after, [], configs, faults, 0)
        == Done(UsersFrom(db, users, configs, faults, 0).after);
  }
}
