/**
 * The username and nickname listings as an in-memory append-only store, the
 * two change detectors (CheckUsername, CheckNickname) over it, the
 * transaction a batch runs in, and the database the pipeline writes to.
 */
module Store {
  import opened Wrappers
  import opened Entities
  import opened History

  /** What the "latest row" statements return. */
  datatype Lookup = Row(value: string) | NoRows | ReadError

  /** How the store behaves for one check: the read can fail, or the insert can. */
  datatype DbFault = Healthy | ReadFails | InsertFails

  datatype DbError = ReadFailed | InsertFailed | UpdateFailed

  /** username_listings per user and nickname_listings per (user, guild), oldest first. */
  datatype Listings = Listings(
    usernames: map<UserId, seq<string>>,
    nicknames: map<(UserId, GuildId), seq<string>>)

  datatype CheckResult = CheckResult(err: Option<DbError>, after: Listings)

  function UsernameHistory(db: Listings, u: UserId): seq<string>
  {
    if u in db.usernames then db.usernames[u] else []
  }

  function NicknameHistory(db: Listings, u: UserId, g: GuildId): seq<string>
  {
    if (u, g) in db.nicknames then db.nicknames[(u, g)] else []
  }

  /** `... order by id desc limit 1`: the last row, unless the read fails. */
  function LatestRow(h: seq<string>, fault: DbFault): (l: Lookup)
    ensures l.ReadError? <==> fault == ReadFails
    ensures l.NoRows? <==> fault != ReadFails && h == []
    ensures l.Row? ==> h != [] && l.value == Last(h)
  {
    if fault == ReadFails then ReadError
    else if h == [] then NoRows
    else Row(Last(h))
  }

  /** CheckUsername on a store value, following the branches of the source in order. */
  function UsernameCheck(db: Listings, user: User, fault: DbFault): CheckResult
  {
    var h := UsernameHistory(db, user.id);
    var last := LatestRow(h, fault);
    if last.Row? && last.value == user.username then CheckResult(None, db)
    else if last.ReadError? then CheckResult(None, db)
    else if fault == InsertFails then CheckResult(Some(InsertFailed), db)
    else CheckResult(None, db.(usernames := db.usernames[user.id := h + [user.username]]))
  }

  /** CheckNickname on a store value, following the branches of the source in order. */
  function NicknameCheck(db: Listings, u: UserId, g: GuildId, nick: string, fault: DbFault): CheckResult
  {
    var h := NicknameHistory(db, u, g);
    var last := LatestRow(h, fault);
    if last.NoRows? && nick == "" then CheckResult(None, db)
    else if last.Row? && last.value == nick then CheckResult(None, db)
    else if last.ReadError? then CheckResult(Some(ReadFailed), db)
    else if fault == InsertFails then CheckResult(Some(InsertFailed), db)
    else CheckResult(None, db.(nicknames := db.nicknames[(u, g) := h + [nick]]))
  }

  /**
   * CheckUsername appends a row exactly when the user has no row or the
   * latest differs, a read error is swallowed, and only a failed insert is
   * reported. Nicknames are never touched.
   */
  lemma UsernameCheckCases(db: Listings, user: User, fault: DbFault)
    ensures var r := UsernameCheck(db, user, fault);
            var h := UsernameHistory(db, user.id);
            var changed := h == [] || Last(h) != user.username;
            && r.after.nicknames == db.nicknames
            && (fault == ReadFails ==> r == CheckResult(None, db))
            && (fault == InsertFails ==> r == CheckResult(if changed then Some(InsertFailed) else None, db))
            && (fault == Healthy ==> r.err == None && UsernameHistory(r.after, user.id) == UsernameAfter(h, user.username))
            && (r.after != db <==> fault == Healthy && changed)
            && (r.after != db ==> r.after.usernames == db.usernames[user.id := h + [user.username]])
  {
    var h := UsernameHistory(db, user.id);
    if fault == Healthy && (h == [] || Last(h) != user.username) {
      var r := UsernameCheck(db, user, fault);
      assert UsernameHistory(r.after, user.id) == h + [user.username];
      assert r.after.usernames != db.usernames by {
        assert |UsernameHistory(r.after, user.id)| != |h|;
      }
    }
  }

  /** A username check of one user leaves every other user's history alone. */
  lemma UsernameCheckOthers(db: Listings, user: User, fault: DbFault, u: UserId)
    requires u != user.id
    ensures UsernameHistory(UsernameCheck(db, user, fault).after, u) == UsernameHistory(db, u)
  {
    UsernameCheckCases(db, user, fault);
  }

  /**
   * CheckNickname: no row and an empty nickname stores nothing; no row and a
   * non-empty nickname, or a latest row that differs (also when the new
   * nickname is empty), appends; an equal latest row is a no-op; a failed
   * read is returned without inserting. Usernames are never touched.
   */
  lemma NicknameCheckCases(db: Listings, u: UserId, g: GuildId, nick: string, fault: DbFault)
    ensures var r := NicknameCheck(db, u, g, nick, fault);
            var h := NicknameHistory(db, u, g);
            var changed := if h == [] then nick != "" else Last(h) != nick;
            && r.after.usernames == db.usernames
            && (fault == ReadFails ==> r == CheckResult(Some(ReadFailed), db))
            && (fault == InsertFails ==> r == CheckResult(if changed then Some(InsertFailed) else None, db))
            && (fault == Healthy ==> r.err == None && NicknameHistory(r.after, u, g) == NicknameAfter(h, nick))
            && (r.after != db <==> fault == Healthy && changed)
            && (r.after != db ==> r.after.nicknames == db.nicknames[(u, g) := h + [nick]])
  {
    var h := NicknameHistory(db, u, g);
    if fault == Healthy && (if h == [] then nick != "" else Last(h) != nick) {
      var r := NicknameCheck(db, u, g, nick, fault);
      assert NicknameHistory(r.after, u, g) == h + [nick];
      assert r.after.nicknames != db.nicknames by {
        assert |NicknameHistory(r.after, u, g)| != |h|;
      }
    }
  }

  /** The store invariants: no adjacent duplicates anywhere, no empty first nickname. */
  predicate WellFormed(db: Listings)
  {
    && (forall u :: u in db.usernames ==> NoAdjacentDuplicates(db.usernames[u]))
    && (forall k :: k in db.nicknames ==> NoAdjacentDuplicates(db.nicknames[k]) && NoEmptyFirst(db.nicknames[k]))
  }

  /** Every history of db is a prefix of the same history in db'. */
  ghost predicate AppendOnly(db: Listings, db': Listings)
  {
    && (forall u :: UsernameHistory(db, u) <= UsernameHistory(db', u))
    && (forall u, g :: NicknameHistory(db, u, g) <= NicknameHistory(db', u, g))
  }

  lemma AppendOnlyTransitive(a: Listings, b: Listings, c: Listings)
    requires AppendOnly(a, b) && AppendOnly(b, c)
    ensures AppendOnly(a, c)
  {
  }

  /** CheckUsername keeps the store invariants and only appends. */
  lemma UsernameCheckKeepsStore(db: Listings, user: User, fault: DbFault)
    requires WellFormed(db)
    ensures WellFormed(UsernameCheck(db, user, fault).after)
    ensures AppendOnly(db, UsernameCheck(db, user, fault).after)
  {
    var h := UsernameHistory(db, user.id);
    UsernameAfterKeepsNoAdjacentDuplicates(h, user.username);
  }

  /** CheckNickname keeps the store invariants and only appends. */
  lemma NicknameCheckKeepsStore(db: Listings, u: UserId, g: GuildId, nick: string, fault: DbFault)
    requires WellFormed(db)
    ensures WellFormed(NicknameCheck(db, u, g, nick, fault).after)
    ensures AppendOnly(db, NicknameCheck(db, u, g, nick, fault).after)
  {
    var h := NicknameHistory(db, u, g);
    NicknameAfterKeepsInvariant(h, nick);
  }

  /** The store after healthy username checks of one user ID with the given names, in order. */
  function UsernameChecks(db: Listings, u: UserId, names: seq<string>): Listings
    decreases |names|
  {
    if names == [] then db
    else UsernameChecks(UsernameCheck(db, User(u, names[0]), Healthy).after, u, names[1..])
  }

  /** The store after healthy nickname checks of one user in one guild, in order. */
  function NicknameChecks(db: Listings, u: UserId, g: GuildId, nicks: seq<string>): Listings
    decreases |nicks|
  {
    if nicks == [] then db
    else NicknameChecks(NicknameCheck(db, u, g, nicks[0], Healthy).after, u, g, nicks[1..])
  }

  /**
   * On a healthy store, repeated username checks of one user leave exactly the
   * distinct consecutive usernames observed; from no rows, no two adjacent
   * rows are equal.
   */
  lemma {:induction false} HealthyUsernameChecks(db: Listings, u: UserId, names: seq<string>)
    ensures UsernameHistory(UsernameChecks(db, u, names), u)
            == ObserveUsernames(UsernameHistory(db, u), names)
    ensures UsernameHistory(db, u) == [] ==> UsernameHistory(UsernameChecks(db, u, names), u) == Compress(names)
    decreases |names|
  {
    if names != [] {
      var db1 := UsernameCheck(db, User(u, names[0]), Healthy).after;
      UsernameCheckCases(db, User(u, names[0]), Healthy);
      HealthyUsernameChecks(db1, u, names[1..]);
    }
    ObserveUsernamesFromNothing(names);
  }

  /**
   * On a healthy store, repeated nickname checks of one user in one guild,
   * from no rows, leave the distinct consecutive nicknames observed from the
   * first non-empty one on.
   */
  lemma {:induction false} HealthyNicknameChecks(db: Listings, u: UserId, g: GuildId, nicks: seq<string>)
    ensures NicknameHistory(NicknameChecks(db, u, g, nicks), u, g)
            == ObserveNicknames(NicknameHistory(db, u, g), nicks)
    ensures NicknameHistory(db, u, g) == [] ==>
              NicknameHistory(NicknameChecks(db, u, g, nicks), u, g) == Compress(DropLeadingEmpty(nicks))
    decreases |nicks|
  {
    if nicks != [] {
      var db1 := NicknameCheck(db, u, g, nicks[0], Healthy).after;
      NicknameCheckCases(db, u, g, nicks[0], Healthy);
      HealthyNicknameChecks(db1, u, g, nicks[1..]);
    }
    ObserveNicknamesFromNothing(nicks);
  }

  /**
   * The transaction a batch runs in: its own view of the listings, which the
   * checks append to and which is written back only on commit.
   */
  class Tx {
    var usernames: map<UserId, seq<string>>
    var nicknames: map<(UserId, GuildId), seq<string>>

    function State(): Listings
      reads this
    {
      Listings(usernames, nicknames)
    }

    constructor (db: Listings)
      ensures State() == db
    {
      usernames := db.usernames;
      nicknames := db.nicknames;
    }

    /** Reads the latest username of the user, then inserts one row on a change. */
    method CheckUsername(user: User, fault: DbFault) returns (err: Option<DbError>)
      modifies this
      ensures CheckResult(err, State()) == UsernameCheck(old(State()), user, fault)
    {
      var h := if user.id in usernames then usernames[user.id] else [];
      var last := LatestRow(h, fault);
      if last.Row? && last.value == user.username {
        return None;
      }
      if last.ReadError? {
        return None;
      }
      if fault == InsertFails {
        return Some(InsertFailed);
      }
      usernames := usernames[user.id := h + [user.username]];
      err := None;
    }

    /** Reads the latest nickname of the user in the guild, then inserts one row on a change. */
    method CheckNickname(u: UserId, g: GuildId, nick: string, fault: DbFault) returns (err: Option<DbError>)
      modifies this
      ensures CheckResult(err, State()) == NicknameCheck(old(State()), u, g, nick, fault)
    {
      var h := if (u, g) in nicknames then nicknames[(u, g)] else [];
      var last := LatestRow(h, fault);
      if last.NoRows? && nick == "" {
        return None;
      }
      if last.Row? && last.value == nick {
        return None;
      }
      if last.ReadError? {
        return Some(ReadFailed);
      }
      if fault == InsertFails {
        return Some(InsertFailed);
      }
      nicknames := nicknames[(u, g) := h + [nick]];
      err := None;
    }
  }

  /**
   * The database the pipeline writes to: the two listings tables and the
   * deleted flag of every logged message, by message ID.
   */
  class Database {
    var usernames: map<UserId, seq<string>>
    var nicknames: map<(UserId, GuildId), seq<string>>
    var deleted: map<MessageId, bool>

    function State(): Listings
      reads this
    {
      Listings(usernames, nicknames)
    }

    constructor (db: Listings, messages: map<MessageId, bool>)
      ensures State() == db && deleted == messages
    {
      usernames := db.usernames;
      nicknames := db.nicknames;
      deleted := messages;
    }
  }
}
