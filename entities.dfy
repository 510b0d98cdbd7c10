/** Option, the one wrapper the model needs. */
module Wrappers {
  datatype Option<+T> = None | Some(value: T)
}

/**
 * The entities that flow through the username/nickname tracking pipeline of
 * the logs plugin: users, guild members, the per-guild logging configuration,
 * the events the bot receives and the errors a batch can fail with.
 */
module Entities {
  type UserId = int
  type GuildId = int
  type MessageId = int

  /** A user as the event feed reports it (ID and current username). */
  datatype User = User(id: UserId, username: string)

  /** A guild member: the user, the guild and the guild-scoped nickname. */
  datatype Member = Member(guildId: GuildId, user: User, nick: string)

  /** What the accumulator keeps of a presence update. */
  datatype UserGuildPair = UserGuildPair(guildId: GuildId, user: User)

  /** The stored logging configuration of one guild. */
  datatype LoggingConfig = LoggingConfig(
    guildId: GuildId,
    usernameLoggingEnabled: bool,
    nicknameLoggingEnabled: bool)

  /** A presence update: guild, user (the username may be empty) and nickname. */
  datatype Presence = Presence(guildId: GuildId, user: User, nick: string)

  /** The values that reach the accumulator's channel. */
  datatype Event =
    | PresenceUpdate(presence: Presence)
    | GuildMemberUpdate(member: Member)
    | GuildMemberAdd(member: Member)
    | MemberFetched(member: Member)
    | Unrecognised

  /** The wrapped errors a batch returns, one per place it can stop. */
  datatype BatchError =
    | UsersConfigs
    | MembersConfigs
    | UserUsernameCheck
    | MembersUsernameCheck
    | MembersNicknameCheck
    | TxBegin
    | TxCommit
}
