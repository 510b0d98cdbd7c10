/**
 * ProcessBatch: one tick's commit of the queued presence users and members,
 * inside one transaction. Configs are resolved first, then every queued user
 * is checked (unless its guild has username logging off), then every queued
 * member (unless its guild has both loggings off). Any error stops the batch
 * and rolls the transaction back.
 */
module Batch {
  import opened Wrappers
  import opened Entities
  import opened History
  import opened Store
  import opened Configs

  /** The place of a check in a batch: the queued user, or the member's two checks. */
  datatype Site = UserSite(i: nat) | MemberUsernameSite(i: nat) | MemberNicknameSite(i: nat)

  /** How the store behaves at each check of the batch. */
  type Faults = Site -> DbFault

  /** How the transaction itself behaves: it may fail to begin, or fail to commit after its body succeeded. */
  datatype TxFault = TxHealthy | BeginFails | CommitFails

  /** Either the listings the transaction would commit, or the error that stopped it. */
  datatype Phase = Done(after: Listings) | Failed(err: BatchError)

  /** Lines 669-686: the queued users from position i on. */
  function UsersFrom(db: Listings, users: seq<UserGuildPair>, configs: seq<LoggingConfig>, faults: Faults, i: nat): Phase
    decreases |users| - i
  {
    if i >= |users| then Done(db)
    else
      var v := users[i];
      var c := ConfigFor(configs, v.guildId);
      if c.Some? && !c.value.usernameLoggingEnabled then UsersFrom(db, users, configs, faults, i + 1)
      else
        var r := UsernameCheck(db, v.user, faults(UserSite(i)));
        if r.err.Some? then Failed(UserUsernameCheck)
        else UsersFrom(r.after, users, configs, faults, i + 1)
  }

  /**
   * Lines 689-715: the queued members from position i on. When either flag
   * of the member's guild is on, both the username and the nickname check run.
   */
  function MembersFrom(db: Listings, members: seq<Member>, configs: seq<LoggingConfig>, faults: Faults, i: nat): Phase
    decreases |members| - i
  {
    if i >= |members| then Done(db)
    else
      var v := members[i];
      var c := ConfigFor(configs, v.guildId);
      var checkNick := c.Some? && c.value.nicknameLoggingEnabled;
      var checkUser := c.Some? && c.value.usernameLoggingEnabled;
      if !checkNick && !checkUser then MembersFrom(db, members, configs, faults, i + 1)
      else
        var r1 := UsernameCheck(db, v.user, faults(MemberUsernameSite(i)));
        if r1.err.Some? then Failed(MembersUsernameCheck)
        else
          var r2 := NicknameCheck(r1.after, v.user.id, v.guildId, v.nick, faults(MemberNicknameSite(i)));
          if r2.err.Some? then Failed(MembersNicknameCheck)
          else MembersFrom(r2.after, members, configs, faults, i + 1)
  }

  /** Lines 635-720: what the body of the batch transaction computes on the listings db. */
  function BatchSpec(db: Listings, users: seq<UserGuildPair>, members: seq<Member>, resolve: Resolver, faults: Faults): Phase
  {
    var d := BatchGuilds(users, members);
    var k := FirstUnresolved(d, resolve);
    if k < |d| then Failed(if d[k] in UserGuilds(users) then UsersConfigs else MembersConfigs)
    else
      var configs := ConfigsOf(d, resolve);
      match UsersFrom(db, users, configs, faults, 0)
      case Failed(e) => Failed(e)
      case Done(db1) => MembersFrom(db1, members, configs, faults, 0)
  }

  /**
   * Line 624: the batch body run inside a transaction. A transaction that
   * does not begin runs nothing; one whose body failed is rolled back with
   * the body's error; one whose commit fails is rolled back too.
   */
  function TxOutcome(db: Listings, users: seq<UserGuildPair>, members: seq<Member>, resolve: Resolver, faults: Faults,
                     tx: TxFault): Phase
  {
    if tx == BeginFails then Failed(TxBegin)
    else
      match BatchSpec(db, users, members, resolve, faults)
      case Failed(e) => Failed(e)
      case Done(after) => if tx == CommitFails then Failed(TxCommit) else Done(after)
  }

  /**
   * A batch commits exactly when the transaction is healthy and its body
   * succeeds, and then commits what the body computed; otherwise the error
   * is the begin error, the body's error, or the commit error, in that order.
   */
  lemma TxOutcomeCases(db: Listings, users: seq<UserGuildPair>, members: seq<Member>, resolve: Resolver, faults: Faults,
                       tx: TxFault)
    ensures var r := TxOutcome(db, users, members, resolve, faults, tx);
            var body := BatchSpec(db, users, members, resolve, faults);
            && (r.Done? <==> tx == TxHealthy && body.Done?)
            && (r.Done? ==> r.after == body.after)
            && (tx == BeginFails ==> r == Failed(TxBegin))
            && (tx != BeginFails && body.Failed? ==> r == Failed(body.err))
            && (tx == CommitFails && body.Done? ==> r == Failed(TxCommit))
  {
  }

  /**
   * Lines 621-721. The transaction is a fresh copy of the listings; it is
   * written back only when every step succeeded, so a failed batch leaves
   * the database as it was. Message rows are not touched.
   */
  method ProcessBatch(db: Database, users: seq<UserGuildPair>, members: seq<Member>, resolve: Resolver, faults: Faults,
                      tx: TxFault)
    returns (err: Option<BatchError>, calls: seq<GuildId>)
    requires ResolverSound(resolve)
    modifies db
    ensures db.deleted == old(db.deleted)
    ensures var outcome := TxOutcome(old(db.State()), users, members, resolve, faults, tx);
            && (outcome.Failed? ==> err == Some(outcome.err) && db.State() == old(db.State()))
            && (outcome.Done? ==> err == None && db.State() == outcome.after)
    ensures calls == if tx == BeginFails then [] else ResolverCalls(users, members, resolve)
  {
    if tx == BeginFails {
      return Some(TxBegin), [];
    }
    var configs;
    err, configs, calls := ResolveConfigs(users, members, resolve);
    if err.Some? {
      return;
    }
    ghost var d := BatchGuilds(users, members);
    assert configs == ConfigsOf(d, resolve);
    var t := new Tx(db.State());
    err := CheckUsers(t, users, configs, faults);
    if err.Some? {
      return;
    }
    err := CheckMembers(t, members, configs, faults);
    if err.Some? {
      return;
    }
    if tx == CommitFails {
      return Some(TxCommit), calls;
    }

    // commit
    db.usernames, db.nicknames := t.usernames, t.nicknames;
  }

  /** Lines 669-686: the username check of every queued user whose guild does not have username logging off. */
  method CheckUsers(tx: Tx, users: seq<UserGuildPair>, configs: seq<LoggingConfig>, faults: Faults)
    returns (err: Option<BatchError>)
    modifies tx
    ensures var r := UsersFrom(old(tx.State()), users, configs, faults, 0);
            && (r.Failed? ==> err == Some(r.err))
            && (r.Done? ==> err == None && tx.State() == r.after)
  {
    ghost var db0 := tx.State();
    var i := 0;
    while i < |users|
      invariant 0 <= i <= |users|
      invariant UsersFrom(tx.State(), users, configs, faults, i) == UsersFrom(db0, users, configs, faults, 0)
    {
      var v := users[i];
      var c := FindConfig(configs, v.guildId);
      if !(c.Some? && !c.value.usernameLoggingEnabled) {
        var e := tx.CheckUsername(v.user, faults(UserSite(i)));
        if e.Some? {
          return Some(UserUsernameCheck);
        }
      }
      i := i + 1;
    }
    err := None;
  }

  /** Lines 689-715: both checks of every queued member whose guild has either logging on. */
  method CheckMembers(tx: Tx, members: seq<Member>, configs: seq<LoggingConfig>, faults: Faults)
    returns (err: Option<BatchError>)
    modifies tx
    ensures var r := MembersFrom(old(tx.State()), members, configs, faults, 0);
            && (r.Failed? ==> err == Some(r.err))
            && (r.Done? ==> err == None && tx.State() == r.after)
  {
    ghost var db0 := tx.State();
    var j := 0;
    while j < |members|
      invariant 0 <= j <= |members|
      invariant MembersFrom(tx.State(), members, configs, faults, j) == MembersFrom(db0, members, configs, faults, 0)
    {
      var v := members[j];
      var c := FindConfig(configs, v.guildId);
      var checkNick := c.Some? && c.value.nicknameLoggingEnabled;
      var checkUser := c.Some? && c.value.usernameLoggingEnabled;
      if checkNick || checkUser {
        var e := tx.CheckUsername(v.user, faults(MemberUsernameSite(j)));
        if e.Some? {
          return Some(MembersUsernameCheck);
        }
        e := tx.CheckNickname(v.user.id, v.guildId, v.nick, faults(MemberNicknameSite(j)));
        if e.Some? {
          return Some(MembersNicknameCheck);
        }
      }
      j := j + 1;
    }
    err := None;
  }

  /** A member is skipped when its guild has neither logging on (line 702). */
  predicate MemberSkipped(configs: seq<LoggingConfig>, g: GuildId)
  {
    var c := ConfigFor(configs, g);
    !(c.Some? && c.value.nicknameLoggingEnabled) && !(c.Some? && c.value.usernameLoggingEnabled)
  }

  /** A queued user is skipped when its guild has username logging off (line 674). */
  predicate UserSkipped(configs: seq<LoggingConfig>, g: GuildId)
  {
    var c := ConfigFor(configs, g);
    c.Some? && !c.value.usernameLoggingEnabled
  }

  /** The users phase keeps the store invariants, only appends, and never writes a nickname. */
  lemma {:induction false} UsersFromKeepsStore(db: Listings, users: seq<UserGuildPair>, configs: seq<LoggingConfig>, faults: Faults, i: nat)
    requires WellFormed(db)
    requires UsersFrom(db, users, configs, faults, i).Done?
    ensures var after := UsersFrom(db, users, configs, faults, i).after;
            WellFormed(after) && AppendOnly(db, after) && after.nicknames == db.nicknames
    decreases |users| - i
  {
    if i < |users| {
      var v := users[i];
      if !UserSkipped(configs, v.guildId) {
        var r := UsernameCheck(db, v.user, faults(UserSite(i)));
        UsernameCheckKeepsStore(db, v.user, faults(UserSite(i)));
        UsernameCheckCases(db, v.user, faults(UserSite(i)));
        UsersFromKeepsStore(r.after, users, configs, faults, i + 1);
        AppendOnlyTransitive(db, r.after, UsersFrom(db, users, configs, faults, i).after);
      } else {
        UsersFromKeepsStore(db, users, configs, faults, i + 1);
      }
    }
  }

  /** The members phase keeps the store invariants and only appends. */
  lemma {:induction false} MembersFromKeepsStore(db: Listings, members: seq<Member>, configs: seq<LoggingConfig>, faults: Faults, i: nat)
    requires WellFormed(db)
    requires MembersFrom(db, members, configs, faults, i).Done?
    ensures var after := MembersFrom(db, members, configs, faults, i).after;
            WellFormed(after) && AppendOnly(db, after)
    decreases |members| - i
  {
    if i < |members| {
      var v := members[i];
      if !MemberSkipped(configs, v.guildId) {
        var r1 := UsernameCheck(db, v.user, faults(MemberUsernameSite(i)));
        UsernameCheckKeepsStore(db, v.user, faults(MemberUsernameSite(i)));
        var r2 := NicknameCheck(r1.after, v.user.id, v.guildId, v.nick, faults(MemberNicknameSite(i)));
        NicknameCheckKeepsStore(r1.after, v.user.id, v.guildId, v.nick, faults(MemberNicknameSite(i)));
        MembersFromKeepsStore(r2.after, members, configs, faults, i + 1);
        AppendOnlyTransitive(db, r1.after, r2.after);
        AppendOnlyTransitive(db, r2.after, MembersFrom(db, members, configs, faults, i).after);
      } else {
        MembersFromKeepsStore(db, members, configs, faults, i + 1);
      }
    }
  }

  /**
   * A batch body that completes keeps the store invariants (no adjacent duplicate
   * usernames or nicknames, no empty first nickname) and only appends rows.
   */
  lemma BatchKeepsStore(db: Listings, users: seq<UserGuildPair>, members: seq<Member>, resolve: Resolver, faults: Faults)
    requires WellFormed(db)
    requires BatchSpec(db, users, members, resolve, faults).Done?
    ensures WellFormed(BatchSpec(db, users, members, resolve, faults).after)
    ensures AppendOnly(db, BatchSpec(db, users, members, resolve, faults).after)
  {
    var d := BatchGuilds(users, members);
    var configs := ConfigsOf(d, resolve);
    UsersFromKeepsStore(db, users, configs, faults, 0);
    var db1 := UsersFrom(db, users, configs, faults, 0).after;
    MembersFromKeepsStore(db1, members, configs, faults, 0);
    AppendOnlyTransitive(db, db1, BatchSpec(db, users, members, resolve, faults).after);
  }

  /** The users phase leaves the usernames of u alone when every queued pair of u is skipped. */
  lemma {:induction false} UsersFromUsernameGate(db: Listings, users: seq<UserGuildPair>, configs: seq<LoggingConfig>, faults: Faults, i: nat, u: UserId)
    requires UsersFrom(db, users, configs, faults, i).Done?
    requires forall j :: i <= j < |users| && users[j].user.id == u ==> UserSkipped(configs, users[j].guildId)
    ensures UsernameHistory(UsersFrom(db, users, configs, faults, i).after, u) == UsernameHistory(db, u)
    decreases |users| - i
  {
    if i < |users| {
      var v := users[i];
      if !UserSkipped(configs, v.guildId) {
        var r := UsernameCheck(db, v.user, faults(UserSite(i)));
        UsernameCheckCases(db, v.user, faults(UserSite(i)));
        UsersFromUsernameGate(r.after, users, configs, faults, i + 1, u);
      } else {
        UsersFromUsernameGate(db, users, configs, faults, i + 1, u);
      }
    }
  }

  /** The members phase leaves the usernames of u alone when every member of u is skipped. */
  lemma {:induction false} MembersFromUsernameGate(db: Listings, members: seq<Member>, configs: seq<LoggingConfig>, faults: Faults, i: nat, u: UserId)
    requires MembersFrom(db, members, configs, faults, i).Done?
    requires forall j :: i <= j < |members| && members[j].user.id == u ==> MemberSkipped(configs, members[j].guildId)
    ensures UsernameHistory(MembersFrom(db, members, configs, faults, i).after, u) == UsernameHistory(db, u)
    decreases |members| - i
  {
    if i < |members| {
      var v := members[i];
      if !MemberSkipped(configs, v.guildId) {
        var r1 := UsernameCheck(db, v.user, faults(MemberUsernameSite(i)));
        UsernameCheckCases(db, v.user, faults(MemberUsernameSite(i)));
        var r2 := NicknameCheck(r1.after, v.user.id, v.guildId, v.nick, faults(MemberNicknameSite(i)));
        NicknameCheckCases(r1.after, v.user.id, v.guildId, v.nick, faults(MemberNicknameSite(i)));
        MembersFromUsernameGate(r2.after, members, configs, faults, i + 1, u);
      } else {
        MembersFromUsernameGate(db, members, configs, faults, i + 1, u);
      }
    }
  }

  /** The members phase leaves the nicknames of u in g alone when every member of u in g is skipped. */
  lemma {:induction false} MembersFromNicknameGate(db: Listings, members: seq<Member>, configs: seq<LoggingConfig>, faults: Faults, i: nat, u: UserId, g: GuildId)
    requires MembersFrom(db, members, configs, faults, i).Done?
    requires forall j :: i <= j < |members| && members[j].user.id == u && members[j].guildId == g ==> MemberSkipped(configs, g)
    ensures NicknameHistory(MembersFrom(db, members, configs, faults, i).after, u, g) == NicknameHistory(db, u, g)
    decreases |members| - i
  {
    if i < |members| {
      var v := members[i];
      if !MemberSkipped(configs, v.guildId) {
        var r1 := UsernameCheck(db, v.user, faults(MemberUsernameSite(i)));
        UsernameCheckCases(db, v.user, faults(MemberUsernameSite(i)));
        var r2 := NicknameCheck(r1.after, v.user.id, v.guildId, v.nick, faults(MemberNicknameSite(i)));
        NicknameCheckCases(r1.after, v.user.id, v.guildId, v.nick, faults(MemberNicknameSite(i)));
        MembersFromNicknameGate(r2.after, members, configs, faults, i + 1, u, g);
      } else {
        MembersFromNicknameGate(db, members, configs, faults, i + 1, u, g);
      }
    }
  }

  /** Username logging of guild g, as the resolver reports it. */
  predicate UsernameOn(resolve: Resolver, g: GuildId)
  {
    resolve(g).Some? && resolve(g).value.usernameLoggingEnabled
  }

  /** Nickname logging of guild g, as the resolver reports it. */
  predicate NicknameOn(resolve: Resolver, g: GuildId)
  {
    resolve(g).Some? && resolve(g).value.nicknameLoggingEnabled
  }

  /** In a batch that resolved, each queued guild's lookup finds the resolver's config. */
  lemma BatchConfigs(users: seq<UserGuildPair>, members: seq<Member>, resolve: Resolver, g: GuildId)
    requires ResolverSound(resolve)
    requires FirstUnresolved(BatchGuilds(users, members), resolve) == |BatchGuilds(users, members)|
    requires g in UserGuilds(users) + MemberGuilds(members)
    ensures g in BatchGuilds(users, members)
    ensures ConfigFor(ConfigsOf(BatchGuilds(users, members), resolve), g) == resolve(g)
  {
    DistinctMembers(UserGuilds(users) + MemberGuilds(members), g);
    ConfigForResolved(BatchGuilds(users, members), resolve, g);
  }

  /**
   * Flags gate username inserts: when every queued presence pair of user u
   * is for a guild with username logging off, and every queued member of u
   * is for a guild with both loggings off, the batch adds no username row for u.
   */
  lemma BatchUsernameGate(db: Listings, users: seq<UserGuildPair>, members: seq<Member>, resolve: Resolver, faults: Faults, u: UserId)
    requires ResolverSound(resolve)
    requires BatchSpec(db, users, members, resolve, faults).Done?
    requires forall i :: 0 <= i < |users| && users[i].user.id == u ==> !UsernameOn(resolve, users[i].guildId)
    requires forall i :: 0 <= i < |members| && members[i].user.id == u ==>
               !UsernameOn(resolve, members[i].guildId) && !NicknameOn(resolve, members[i].guildId)
    ensures UsernameHistory(BatchSpec(db, users, members, resolve, faults).after, u) == UsernameHistory(db, u)
  {
    var d := BatchGuilds(users, members);
    var configs := ConfigsOf(d, resolve);
    var all := UserGuilds(users) + MemberGuilds(members);
    forall j | 0 <= j < |users| && users[j].user.id == u ensures UserSkipped(configs, users[j].guildId) {
      assert all[j] == users[j].guildId;
      BatchConfigs(users, members, resolve, users[j].guildId);
    }
    forall j | 0 <= j < |members| && members[j].user.id == u ensures MemberSkipped(configs, members[j].guildId) {
      assert all[|users| + j] == members[j].guildId;
      BatchConfigs(users, members, resolve, members[j].guildId);
    }
    UsersFromUsernameGate(db, users, configs, faults, 0, u);
    var db1 := UsersFrom(db, users, configs, faults, 0).after;
    MembersFromUsernameGate(db1, members, configs, faults, 0, u);
  }

  /**
   * Flags gate nickname inserts: presence pairs never write nicknames, and
   * when guild g has both loggings off no nickname row is added for any user there.
   */
  lemma BatchNicknameGate(db: Listings, users: seq<UserGuildPair>, members: seq<Member>, resolve: Resolver, faults: Faults, u: UserId, g: GuildId)
    requires ResolverSound(resolve)
    requires BatchSpec(db, users, members, resolve, faults).Done?
    requires !UsernameOn(resolve, g) && !NicknameOn(resolve, g)
    ensures NicknameHistory(BatchSpec(db, users, members, resolve, faults).after, u, g) == NicknameHistory(db, u, g)
  {
    var d := BatchGuilds(users, members);
    var configs := ConfigsOf(d, resolve);
    var all := UserGuilds(users) + MemberGuilds(members);
    UsersFromKeepsNicknames(db, users, configs, faults, 0);
    forall j | 0 <= j < |members| && members[j].user.id == u && members[j].guildId == g
      ensures MemberSkipped(configs, g)
    {
      assert all[|users| + j] == members[j].guildId;
      BatchConfigs(users, members, resolve, g);
    }
    var db1 := UsersFrom(db, users, configs, faults, 0).after;
    MembersFromNicknameGate(db1, members, configs, faults, 0, u, g);
  }

  /** The users phase never writes a nickname. */
  lemma {:induction false} UsersFromKeepsNicknames(db: Listings, users: seq<UserGuildPair>, configs: seq<LoggingConfig>, faults: Faults, i: nat)
    requires UsersFrom(db, users, configs, faults, i).Done?
    ensures UsersFrom(db, users, configs, faults, i).after.nicknames == db.nicknames
    decreases |users| - i
  {
    if i < |users| {
      var v := users[i];
      if !UserSkipped(configs, v.guildId) {
        var r := UsernameCheck(db, v.user, faults(UserSite(i)));
        UsernameCheckCases(db, v.user, faults(UserSite(i)));
        UsersFromKeepsNicknames(r.after, users, configs, faults, i + 1);
      } else {
        UsersFromKeepsNicknames(db, users, configs, faults, i + 1);
      }
    }
  }

  /** The users phase can only stop at a queued user whose check hit a failed insert. */
  lemma {:induction false} UsersFromFailure(db: Listings, users: seq<UserGuildPair>, configs: seq<LoggingConfig>, faults: Faults, i: nat)
    requires UsersFrom(db, users, configs, faults, i).Failed?
    ensures UsersFrom(db, users, configs, faults, i).err == UserUsernameCheck
    ensures exists j :: i <= j < |users| && !UserSkipped(configs, users[j].guildId) && faults(UserSite(j)) == InsertFails
    decreases |users| - i
  {
    var v := users[i];
    if !UserSkipped(configs, v.guildId) {
      var r := UsernameCheck(db, v.user, faults(UserSite(i)));
      UsernameCheckCases(db, v.user, faults(UserSite(i)));
      if r.err.Some? {
        assert faults(UserSite(i)) == InsertFails;
      } else {
        UsersFromFailure(r.after, users, configs, faults, i + 1);
      }
    } else {
      UsersFromFailure(db, users, configs, faults, i + 1);
    }
  }

  /** Without failed inserts the users phase always completes: read errors are swallowed. */
  lemma {:induction false} UsersFromSucceeds(db: Listings, users: seq<UserGuildPair>, configs: seq<LoggingConfig>, faults: Faults, i: nat)
    requires forall j :: i <= j < |users| ==> faults(UserSite(j)) != InsertFails
    ensures UsersFrom(db, users, configs, faults, i).Done?
    decreases |users| - i
  {
    if i < |users| {
      var v := users[i];
      if !UserSkipped(configs, v.guildId) {
        var r := UsernameCheck(db, v.user, faults(UserSite(i)));
        UsernameCheckCases(db, v.user, faults(UserSite(i)));
        UsersFromSucceeds(r.after, users, configs, faults, i + 1);
      } else {
        UsersFromSucceeds(db, users, configs, faults, i + 1);
      }
    }
  }

  /**
   * The members phase can only stop at a member that was checked: on its
   * username check after a failed insert, or on its nickname check after a
   * failed read or insert.
   */
  lemma {:induction false} MembersFromFailure(db: Listings, members: seq<Member>, configs: seq<LoggingConfig>, faults: Faults, i: nat)
    requires MembersFrom(db, members, configs, faults, i).Failed?
    ensures var e := MembersFrom(db, members, configs, faults, i).err;
            && (e == MembersUsernameCheck || e == MembersNicknameCheck)
            && (e == MembersUsernameCheck ==>
                  exists j :: i <= j < |members| && !MemberSkipped(configs, members[j].guildId) && faults(MemberUsernameSite(j)) == InsertFails)
            && (e == MembersNicknameCheck ==>
                  exists j :: i <= j < |members| && !MemberSkipped(configs, members[j].guildId) && faults(MemberNicknameSite(j)) != Healthy)
    decreases |members| - i
  {
    var v := members[i];
    if !MemberSkipped(configs, v.guildId) {
      var r1 := UsernameCheck(db, v.user, faults(MemberUsernameSite(i)));
      UsernameCheckCases(db, v.user, faults(MemberUsernameSite(i)));
      if r1.err.Some? {
        assert faults(MemberUsernameSite(i)) == InsertFails;
      } else {
        var r2 := NicknameCheck(r1.after, v.user.id, v.guildId, v.nick, faults(MemberNicknameSite(i)));
        NicknameCheckCases(r1.after, v.user.id, v.guildId, v.nick, faults(MemberNicknameSite(i)));
        if r2.err.Some? {
          assert faults(MemberNicknameSite(i)) != Healthy;
        } else {
          MembersFromFailure(r2.after, members, configs, faults, i + 1);
        }
      }
    } else {
      MembersFromFailure(db, members, configs, faults, i + 1);
    }
  }

  /** Without failed inserts, and without a failed nickname read, the members phase completes. */
  lemma {:induction false} MembersFromSucceeds(db: Listings, members: seq<Member>, configs: seq<LoggingConfig>, faults: Faults, i: nat)
    requires forall j :: i <= j < |members| ==> faults(MemberUsernameSite(j)) != InsertFails
    requires forall j :: i <= j < |members| ==> faults(MemberNicknameSite(j)) == Healthy
    ensures MembersFrom(db, members, configs, faults, i).Done?
    decreases |members| - i
  {
    if i < |members| {
      var v := members[i];
      if !MemberSkipped(configs, v.guildId) {
        var r1 := UsernameCheck(db, v.user, faults(MemberUsernameSite(i)));
        UsernameCheckCases(db, v.user, faults(MemberUsernameSite(i)));
        var r2 := NicknameCheck(r1.after, v.user.id, v.guildId, v.nick, faults(MemberNicknameSite(i)));
        NicknameCheckCases(r1.after, v.user.id, v.guildId, v.nick, faults(MemberNicknameSite(i)));
        MembersFromSucceeds(r2.after, members, configs, faults, i + 1);
      } else {
        MembersFromSucceeds(db, members, configs, faults, i + 1);
      }
    }
  }

  /**
   * The body of a batch runs to the end when every queued guild resolves and
   * the store fails neither an insert nor a nickname read; a failed username
   * read alone never stops it.
   */
  lemma BatchSucceeds(db: Listings, users: seq<UserGuildPair>, members: seq<Member>, resolve: Resolver, faults: Faults)
    requires forall i :: 0 <= i < |users| ==> resolve(users[i].guildId).Some? && faults(UserSite(i)) != InsertFails
    requires forall i :: 0 <= i < |members| ==>
               resolve(members[i].guildId).Some? && faults(MemberUsernameSite(i)) != InsertFails && faults(MemberNicknameSite(i)) == Healthy
    ensures BatchSpec(db, users, members, resolve, faults).Done?
  {
    var all := UserGuilds(users) + MemberGuilds(members);
    var d := BatchGuilds(users, members);
    forall i | 0 <= i < |d| ensures resolve(d[i]).Some? {
      DistinctMembers(all, d[i]);
      var k :| 0 <= k < |all| && all[k] == d[i];
      if k < |users| {
        assert all[k] == users[k].guildId;
      } else {
        assert all[k] == members[k - |users|].guildId;
      }
    }
    var configs := ConfigsOf(d, resolve);
    UsersFromSucceeds(db, users, configs, faults, 0);
    MembersFromSucceeds(UsersFrom(db, users, configs, faults, 0).after, members, configs, faults, 0);
  }
  /** Under the conditions of BatchSucceeds, a transaction that begins and commits commits the body's listings. */
  lemma BatchCommits(db: Listings, users: seq<UserGuildPair>, members: seq<Member>, resolve: Resolver, faults: Faults)
    requires forall i :: 0 <= i < |users| ==> resolve(users[i].guildId).Some? && faults(UserSite(i)) != InsertFails
    requires forall i :: 0 <= i < |members| ==>
               resolve(members[i].guildId).Some? && faults(MemberUsernameSite(i)) != InsertFails && faults(MemberNicknameSite(i)) == Healthy
    ensures TxOutcome(db, users, members, resolve, faults, TxHealthy).Done?
    ensures TxOutcome(db, users, members, resolve, faults, TxHealthy).after == BatchSpec(db, users, members, resolve, faults).after
  {
    BatchSucceeds(db, users, members, resolve, faults);
  }

  /**
   * Every failed batch has a cause: a queued guild whose config could not be
   * resolved, a failed insert, or a failed nickname read.
   */
  lemma BatchFailure(db: Listings, users: seq<UserGuildPair>, members: seq<Member>, resolve: Resolver, faults: Faults)
    requires BatchSpec(db, users, members, resolve, faults).Failed?
    ensures var e := BatchSpec(db, users, members, resolve, faults).err;
            && (e == UsersConfigs ==> exists i :: 0 <= i < |users| && resolve(users[i].guildId).None?)
            && (e == MembersConfigs ==> exists i :: 0 <= i < |members| && resolve(members[i].guildId).None?)
            && (e == UserUsernameCheck ==> exists i :: 0 <= i < |users| && faults(UserSite(i)) == InsertFails)
            && (e == MembersUsernameCheck ==> exists i :: 0 <= i < |members| && faults(MemberUsernameSite(i)) == InsertFails)
            && (e == MembersNicknameCheck ==> exists i :: 0 <= i < |members| && faults(MemberNicknameSite(i)) != Healthy)
  {
    var all := UserGuilds(users) + MemberGuilds(members);
    var d := BatchGuilds(users, members);
    var k := FirstUnresolved(d, resolve);
    if k < |d| {
      DistinctMembers(all, d[k]);
      if d[k] in UserGuilds(users) {
        var i :| 0 <= i < |users| && UserGuilds(users)[i] == d[k];
        assert resolve(users[i].guildId).None?;
      } else {
        var i :| 0 <= i < |all| && all[i] == d[k];
        assert all[i] == MemberGuilds(members)[i - |users|];
        assert resolve(members[i - |users|].guildId).None?;
      }
    } else {
      var configs := ConfigsOf(d, resolve);
      if UsersFrom(db, users, configs, faults, 0).Failed? {
        UsersFromFailure(db, users, configs, faults, 0);
      } else {
        MembersFromFailure(UsersFrom(db, users, configs, faults, 0).after, members, configs, faults, 0);
      }
    }
  }

  /**
   * A guild-member event on an empty store, for a guild with either logging
   * on: the username is always recorded (even when only nickname logging is
   * on), and the nickname only when it is non-empty.
   */
  lemma FirstMemberEvent(m: Member, resolve: Resolver, faults: Faults)
    requires ResolverSound(resolve)
    requires UsernameOn(resolve, m.guildId) || NicknameOn(resolve, m.guildId)
    requires faults(MemberUsernameSite(0)) == Healthy && faults(MemberNicknameSite(0)) == Healthy
    ensures BatchSpec(Listings(map[], map[]), [], [m], resolve, faults) ==
            Done(Listings(map[m.user.id := [m.user.username]],
                          if m.nick == "" then map[] else map[(m.user.id, m.guildId) := [m.nick]]))
  {
    var empty := Listings(map[], map[]);
    OneMemberGuild(m, resolve);
    var configs := ConfigsOf(BatchGuilds([], [m]), resolve);
    BatchConfigs([], [m], resolve, m.guildId);
    assert UsersFrom(empty, [], configs, faults, 0) == Done(empty);
    FirstMemberChecks(m, configs, faults);
  }

  /** The guilds of a batch holding one member. */
  lemma OneMemberGuild(m: Member, resolve: Resolver)
    requires resolve(m.guildId).Some?
    ensures BatchGuilds([], [m]) == [m.guildId]
    ensures FirstUnresolved(BatchGuilds([], [m]), resolve) == 1
    ensures m.guildId in UserGuilds([]) + MemberGuilds([m])
  {
    var all := UserGuilds([]) + MemberGuilds([m]);
    assert all == [] + [m.guildId];
    assert all[..0] == [];
    DistinctSnoc([], m.guildId);
    var d := BatchGuilds([], [m]);
    assert d == [m.guildId];
    assert resolve(d[0]).Some?;
  }

  /** Both checks of one member whose guild is not skipped, on an empty store that does not fail. */
  lemma FirstMemberChecks(m: Member, configs: seq<LoggingConfig>, faults: Faults)
    requires !MemberSkipped(configs, m.guildId)
    requires faults(MemberUsernameSite(0)) == Healthy && faults(MemberNicknameSite(0)) == Healthy
    ensures MembersFrom(Listings(map[], map[]), [m], configs, faults, 0) ==
            Done(Listings(map[m.user.id := [m.user.username]],
                          if m.nick == "" then map[] else map[(m.user.id, m.guildId) := [m.nick]]))
  {
    var empty := Listings(map[], map[]);
    var r1 := UsernameCheck(empty, m.user, Healthy);
    assert [] + [m.user.username] == [m.user.username];
    assert r1.after == Listings(map[m.user.id := [m.user.username]], map[]);
    var r2 := NicknameCheck(r1.after, m.user.id, m.guildId, m.nick, Healthy);
    assert [] + [m.nick] == [m.nick];
    assert r2 == CheckResult(None, Listings(map[m.user.id := [m.user.username]],
                                            if m.nick == "" then map[] else map[(m.user.id, m.guildId) := [m.nick]]));
    assert MembersFrom(empty, [m], configs, faults, 0) == MembersFrom(r2.after, [m], configs, faults, 1);
    assert MembersFrom(r2.after, [m], configs, faults, 1) == Done(r2.after);
  }

  /**
   * The batch body of a presence update repeating the stored latest username
   * adds nothing and cannot fail, whatever the store does.
   */
  lemma RepeatedUsername(db: Listings, p: UserGuildPair, resolve: Resolver, faults: Faults)
    requires resolve(p.guildId).Some?
    requires UsernameHistory(db, p.user.id) != [] && Last(UsernameHistory(db, p.user.id)) == p.user.username
    ensures BatchSpec(db, [p], [], resolve, faults) == Done(db)
  {
    var all := UserGuilds([p]) + MemberGuilds([]);
    assert all == [p.guildId];
    assert all[..0] == [];
    var d := BatchGuilds([p], []);
    DistinctSnoc([], p.guildId);
    assert d == [p.guildId];
    assert FirstUnresolved(d, resolve) == 1 by {
      assert resolve(d[0]).Some?;
    }
    var configs := ConfigsOf(d, resolve);
    UsernameCheckCases(db, p.user, faults(UserSite(0)));
    assert UsersFrom(db, [p], configs, faults, 1) == Done(db);
  }

  /**
   * A member whose nickname was cleared, in a guild with nickname logging on,
   * gets an empty nickname appended after the stored one.
   */
  lemma ClearedNickname(db: Listings, m: Member, resolve: Resolver, faults: Faults)
    requires ResolverSound(resolve)
    requires NicknameOn(resolve, m.guildId)
    requires m.nick == ""
    requires var h := NicknameHistory(db, m.user.id, m.guildId); h != [] && Last(h) != ""
    requires faults(MemberUsernameSite(0)) == Healthy && faults(MemberNicknameSite(0)) == Healthy
    ensures BatchSpec(db, [], [m], resolve, faults).Done?
    ensures NicknameHistory(BatchSpec(db, [], [m], resolve, faults).after, m.user.id, m.guildId) ==
            NicknameHistory(db, m.user.id, m.guildId) + [""]
  {
    var all := UserGuilds([]) + MemberGuilds([m]);
    assert all == [] + [m.guildId];
    assert all[..0] == [];
    var d := BatchGuilds([], [m]);
    DistinctSnoc([], m.guildId);
    assert d == [m.guildId];
    assert FirstUnresolved(d, resolve) == 1 by {
      assert resolve(d[0]).Some?;
    }
    var configs := ConfigsOf(d, resolve);
    BatchConfigs([], [m], resolve, m.guildId);
    assert UsersFrom(db, [], configs, faults, 0) == Done(db);
    var r1 := UsernameCheck(db, m.user, Healthy);
    UsernameCheckCases(db, m.user, Healthy);
    var r2 := NicknameCheck(r1.after, m.user.id, m.guildId, m.nick, Healthy);
    NicknameCheckCases(r1.after, m.user.id, m.guildId, m.nick, Healthy);
    assert MembersFrom(r2.after, [m], configs, faults, 1) == Done(r2.after);
  }

  /** The usernames of the queued users from position i on. */
  function UserNames(users: seq<UserGuildPair>, i: nat): (r: seq<string>)
    requires i <= |users|
    ensures |r| == |users| - i && forall k :: 0 <= k < |r| ==> r[k] == users[i + k].user.username
  {
    seq(|users| - i, k requires 0 <= k < |users| - i => users[i + k].user.username)
  }

  /** The nicknames of the queued members from position i on. */
  function MemberNicks(members: seq<Member>, i: nat): (r: seq<string>)
    requires i <= |members|
    ensures |r| == |members| - i && forall k :: 0 <= k < |r| ==> r[k] == members[i + k].nick
  {
    seq(|members| - i, k requires 0 <= k < |members| - i => members[i + k].nick)
  }

  /** The usernames of the queued members from position i on. */
  function MemberNames(members: seq<Member>, i: nat): (r: seq<string>)
    requires i <= |members|
    ensures |r| == |members| - i && forall k :: 0 <= k < |r| ==> r[k] == members[i + k].user.username
  {
    seq(|members| - i, k requires 0 <= k < |members| - i => members[i + k].user.username)
  }

  /** Queued users of one user, all checked on a healthy store, record the observed usernames in turn. */
  lemma {:induction false} UsersFromObserves(db: Listings, users: seq<UserGuildPair>, configs: seq<LoggingConfig>, faults: Faults, i: nat, u: UserId)
    requires i <= |users|
    requires forall j :: i <= j < |users| ==>
               users[j].user.id == u && !UserSkipped(configs, users[j].guildId) && faults(UserSite(j)) == Healthy
    ensures UsersFrom(db, users, configs, faults, i).Done?
    ensures UsernameHistory(UsersFrom(db, users, configs, faults, i).after, u) ==
            ObserveUsernames(UsernameHistory(db, u), UserNames(users, i))
    decreases |users| - i
  {
    if i < |users| {
      var v := users[i];
      var r := UsernameCheck(db, v.user, Healthy);
      UsernameCheckCases(db, v.user, Healthy);
      UsersFromObserves(r.after, users, configs, faults, i + 1, u);
      assert UserNames(users, i)[1..] == UserNames(users, i + 1);
    }
  }

  /**
   * Queued members of one user in one guild, all checked on a healthy store,
   * record the observed usernames and nicknames in turn.
   */
  lemma {:induction false} MembersFromObserves(db: Listings, members: seq<Member>, configs: seq<LoggingConfig>, faults: Faults, i: nat, u: UserId, g: GuildId)
    requires i <= |members|
    requires forall j :: i <= j < |members| ==>
               members[j].user.id == u && members[j].guildId == g && faults(MemberUsernameSite(j)) == Healthy &&
               faults(MemberNicknameSite(j)) == Healthy
    requires !MemberSkipped(configs, g)
    ensures MembersFrom(db, members, configs, faults, i).Done?
    ensures UsernameHistory(MembersFrom(db, members, configs, faults, i).after, u) ==
            ObserveUsernames(UsernameHistory(db, u), MemberNames(members, i))
    ensures NicknameHistory(MembersFrom(db, members, configs, faults, i).after, u, g) ==
            ObserveNicknames(NicknameHistory(db, u, g), MemberNicks(members, i))
    decreases |members| - i
  {
    if i < |members| {
      var v := members[i];
      var r1 := UsernameCheck(db, v.user, Healthy);
      UsernameCheckCases(db, v.user, Healthy);
      var r2 := NicknameCheck(r1.after, u, g, v.nick, Healthy);
      NicknameCheckCases(r1.after, u, g, v.nick, Healthy);
      MembersFromObserves(r2.after, members, configs, faults, i + 1, u, g);
      assert MemberNames(members, i)[1..] == MemberNames(members, i + 1);
      assert MemberNicks(members, i)[1..] == MemberNicks(members, i + 1);
    }
  }

  /** The usernames of u's queued users from position i on whose guild has username logging on. */
  function LoggedUserNames(users: seq<UserGuildPair>, resolve: Resolver, u: UserId, i: nat): seq<string>
    requires i <= |users|
    decreases |users| - i
  {
    if i == |users| then []
    else (if users[i].user.id == u && UsernameOn(resolve, users[i].guildId) then [users[i].user.username] else [])
         + LoggedUserNames(users, resolve, u, i + 1)
  }

  /** The usernames of u's queued members from position i on whose guild has either logging on. */
  function LoggedMemberNames(members: seq<Member>, resolve: Resolver, u: UserId, i: nat): seq<string>
    requires i <= |members|
    decreases |members| - i
  {
    if i == |members| then []
    else (if members[i].user.id == u && (UsernameOn(resolve, members[i].guildId) || NicknameOn(resolve, members[i].guildId))
          then [members[i].user.username] else [])
         + LoggedMemberNames(members, resolve, u, i + 1)
  }

  /**
   * A users phase that completes, with u's checks on a healthy store, records
   * the usernames of u's checked users in queue order; other users' checks
   * leave u's history alone.
   */
  lemma {:induction false} UsersFromUsernames(db: Listings, users: seq<UserGuildPair>, configs: seq<LoggingConfig>,
                                              resolve: Resolver, faults: Faults, i: nat, u: UserId)
    requires i <= |users|
    requires UsersFrom(db, users, configs, faults, i).Done?
    requires forall j :: i <= j < |users| ==> (UserSkipped(configs, users[j].guildId) <==> !UsernameOn(resolve, users[j].guildId))
    requires forall j :: i <= j < |users| && users[j].user.id == u ==> faults(UserSite(j)) == Healthy
    ensures UsernameHistory(UsersFrom(db, users, configs, faults, i).after, u) ==
            ObserveUsernames(UsernameHistory(db, u), LoggedUserNames(users, resolve, u, i))
    decreases |users| - i
  {
    if i < |users| {
      var v := users[i];
      var rest := LoggedUserNames(users, resolve, u, i + 1);
      if UserSkipped(configs, v.guildId) {
        assert UsersFrom(db, users, configs, faults, i) == UsersFrom(db, users, configs, faults, i + 1);
        UsersFromUsernames(db, users, configs, resolve, faults, i + 1, u);
        assert !UsernameOn(resolve, v.guildId);
        assert LoggedUserNames(users, resolve, u, i) == [] + rest == rest;
      } else {
        var r := UsernameCheck(db, v.user, faults(UserSite(i)));
        UsernameCheckCases(db, v.user, faults(UserSite(i)));
        assert r.err.None?;
        assert UsersFrom(db, users, configs, faults, i) == UsersFrom(r.after, users, configs, faults, i + 1);
        assert UsernameOn(resolve, v.guildId);
        UsersFromUsernames(r.after, users, configs, resolve, faults, i + 1, u);
        if v.user.id == u {
          var obs := [v.user.username] + rest;
          assert LoggedUserNames(users, resolve, u, i) == obs;
          assert obs[0] == v.user.username && obs[1..] == rest;
        } else {
          assert LoggedUserNames(users, resolve, u, i) == [] + rest == rest;
          UsernameCheckOthers(db, v.user, faults(UserSite(i)), u);
        }
      }
    }
  }

  /**
   * A members phase that completes, with u's username checks on a healthy
   * store, records the usernames of u's checked members in queue order.
   */
  lemma {:induction false} MembersFromUsernames(db: Listings, members: seq<Member>, configs: seq<LoggingConfig>,
                                                resolve: Resolver, faults: Faults, i: nat, u: UserId)
    requires i <= |members|
    requires MembersFrom(db, members, configs, faults, i).Done?
    requires forall j :: i <= j < |members| ==>
               (MemberSkipped(configs, members[j].guildId) <==>
                !UsernameOn(resolve, members[j].guildId) && !NicknameOn(resolve, members[j].guildId))
    requires forall j :: i <= j < |members| && members[j].user.id == u ==> faults(MemberUsernameSite(j)) == Healthy
    ensures UsernameHistory(MembersFrom(db, members, configs, faults, i).after, u) ==
            ObserveUsernames(UsernameHistory(db, u), LoggedMemberNames(members, resolve, u, i))
    decreases |members| - i
  {
    if i < |members| {
      var v := members[i];
      var rest := LoggedMemberNames(members, resolve, u, i + 1);
      if MemberSkipped(configs, v.guildId) {
        assert MembersFrom(db, members, configs, faults, i) == MembersFrom(db, members, configs, faults, i + 1);
        MembersFromUsernames(db, members, configs, resolve, faults, i + 1, u);
        assert !UsernameOn(resolve, v.guildId) && !NicknameOn(resolve, v.guildId);
        assert LoggedMemberNames(members, resolve, u, i) == [] + rest == rest;
      } else {
        var r1 := UsernameCheck(db, v.user, faults(MemberUsernameSite(i)));
        UsernameCheckCases(db, v.user, faults(MemberUsernameSite(i)));
        var r2 := NicknameCheck(r1.after, v.user.id, v.guildId, v.nick, faults(MemberNicknameSite(i)));
        NicknameCheckCases(r1.after, v.user.id, v.guildId, v.nick, faults(MemberNicknameSite(i)));
        assert r1.err.None? && r2.err.None?;
        assert MembersFrom(db, members, configs, faults, i) == MembersFrom(r2.after, members, configs, faults, i + 1);
        assert UsernameOn(resolve, v.guildId) || NicknameOn(resolve, v.guildId);
        MembersFromUsernames(r2.after, members, configs, resolve, faults, i + 1, u);
        assert UsernameHistory(r2.after, u) == UsernameHistory(r1.after, u);
        if v.user.id == u {
          var obs := [v.user.username] + rest;
          assert LoggedMemberNames(members, resolve, u, i) == obs;
          assert obs[0] == v.user.username && obs[1..] == rest;
        } else {
          assert LoggedMemberNames(members, resolve, u, i) == [] + rest == rest;
          UsernameCheckOthers(db, v.user, faults(MemberUsernameSite(i)), u);
        }
      }
    }
  }

  /**
   * A batch body that completes, with u's username checks on a healthy store, records
   * the usernames of u's checked presence users first and of u's checked
   * members after, each in queue order, whatever order the events arrived in.
   */
  lemma BatchUsernames(db: Listings, users: seq<UserGuildPair>, members: seq<Member>, resolve: Resolver, faults: Faults,
                       u: UserId)
    requires ResolverSound(resolve)
    requires BatchSpec(db, users, members, resolve, faults).Done?
    requires forall j :: 0 <= j < |users| && users[j].user.id == u ==> faults(UserSite(j)) == Healthy
    requires forall j :: 0 <= j < |members| && members[j].user.id == u ==> faults(MemberUsernameSite(j)) == Healthy
    ensures UsernameHistory(BatchSpec(db, users, members, resolve, faults).after, u) ==
            ObserveUsernames(UsernameHistory(db, u),
                             LoggedUserNames(users, resolve, u, 0) + LoggedMemberNames(members, resolve, u, 0))
  {
    var d := BatchGuilds(users, members);
    var configs := ConfigsOf(d, resolve);
    var all := UserGuilds(users) + MemberGuilds(members);
    forall j | 0 <= j < |users|
      ensures UserSkipped(configs, users[j].guildId) <==> !UsernameOn(resolve, users[j].guildId)
    {
      assert all[j] == users[j].guildId;
      QueuedGuildResolved(users, members, resolve, users[j].guildId);
    }
    forall j | 0 <= j < |members|
      ensures MemberSkipped(configs, members[j].guildId) <==>
              !UsernameOn(resolve, members[j].guildId) && !NicknameOn(resolve, members[j].guildId)
    {
      assert all[|users| + j] == members[j].guildId;
      QueuedGuildResolved(users, members, resolve, members[j].guildId);
    }
    UsersFromUsernames(db, users, configs, resolve, faults, 0, u);
    var db1 := UsersFrom(db, users, configs, faults, 0).after;
    MembersFromUsernames(db1, members, configs, resolve, faults, 0, u);
    ObserveUsernamesConcat(UsernameHistory(db, u), LoggedUserNames(users, resolve, u, 0), LoggedMemberNames(members, resolve, u, 0));
  }

  /**
   * The queued presence user is checked before the queued member: with "A"
   * stored, the batch body of presence username "C" and member username "B" completes and stores
   * "A", "C", "B", and not "A", "B", "C".
   */
  lemma MembersAfterUsers(db: Listings, resolve: Resolver, faults: Faults)
    requires ResolverSound(resolve) && resolve(7) == Some(LoggingConfig(7, true, true))
    requires faults(UserSite(0)) == Healthy && faults(MemberUsernameSite(0)) == Healthy && faults(MemberNicknameSite(0)) == Healthy
    requires UsernameHistory(db, 1) == ["A"]
    ensures var outcome := BatchSpec(db, [UserGuildPair(7, User(1, "C"))], [Member(7, User(1, "B"), "")], resolve, faults);
            && outcome.Done?
            && UsernameHistory(outcome.after, 1) == ["A", "C", "B"]
            && UsernameHistory(outcome.after, 1) != ObserveUsernames(["A"], ["B", "C"])
  {
    var users := [UserGuildPair(7, User(1, "C"))];
    var members := [Member(7, User(1, "B"), "")];
    BatchSucceeds(db, users, members, resolve, faults);
    BatchUsernames(db, users, members, resolve, faults, 1);
    assert LoggedUserNames(users, resolve, 1, 0) == ["C"] + [] == ["C"];
    assert LoggedMemberNames(members, resolve, 1, 0) == ["B"] + [] == ["B"];
    assert ["C"] + ["B"] == ["C", "B"];
    assert ObserveUsernames(["A"], ["C", "B"]) == ["A", "C", "B"] by {
      assert ["C", "B"][1..] == ["B"] && ["B"][1..] == [];
      assert UsernameAfter(["A"], "C") == ["A", "C"];
      assert UsernameAfter(["A", "C"], "B") == ["A", "C", "B"];
    }
    assert ObserveUsernames(["A"], ["B", "C"]) == ["A", "B", "C"] by {
      assert ["B", "C"][1..] == ["C"] && ["C"][1..] == [];
      assert UsernameAfter(["A"], "B") == ["A", "B"];
      assert UsernameAfter(["A", "B"], "C") == ["A", "B", "C"];
    }
  }

  /** In a resolved batch, a queued guild has a config, and its lookup in the configs is that config. */
  lemma QueuedGuildResolved(users: seq<UserGuildPair>, members: seq<Member>, resolve: Resolver, g: GuildId)
    requires ResolverSound(resolve)
    requires FirstUnresolved(BatchGuilds(users, members), resolve) == |BatchGuilds(users, members)|
    requires g in UserGuilds(users) + MemberGuilds(members)
    ensures resolve(g).Some?
    ensures ConfigFor(ConfigsOf(BatchGuilds(users, members), resolve), g) == resolve(g)
  {
    BatchConfigs(users, members, resolve, g);
    var d := BatchGuilds(users, members);
    var k :| 0 <= k < |d| && d[k] == g;
    assert resolve(d[k]).Some?;
  }

  /**
   * The batch body of presence updates of one user, every guild with username
   * logging on and a healthy store, completes: the stored usernames gain exactly the
   * distinct consecutive usernames observed; from no rows, they are exactly
   * those, with no adjacent duplicates.
   */
  lemma BatchObservesUsernames(db: Listings, users: seq<UserGuildPair>, resolve: Resolver, faults: Faults, u: UserId)
    requires ResolverSound(resolve)
    requires forall j :: 0 <= j < |users| ==>
               users[j].user.id == u && UsernameOn(resolve, users[j].guildId) && faults(UserSite(j)) == Healthy
    ensures BatchSpec(db, users, [], resolve, faults).Done?
    ensures UsernameHistory(BatchSpec(db, users, [], resolve, faults).after, u) ==
            ObserveUsernames(UsernameHistory(db, u), UserNames(users, 0))
    ensures UsernameHistory(db, u) == [] ==>
            UsernameHistory(BatchSpec(db, users, [], resolve, faults).after, u) == Compress(UserNames(users, 0)) &&
            NoAdjacentDuplicates(UsernameHistory(BatchSpec(db, users, [], resolve, faults).after, u))
  {
    BatchSucceeds(db, users, [], resolve, faults);
    var d := BatchGuilds(users, []);
    var configs := ConfigsOf(d, resolve);
    var all := UserGuilds(users) + MemberGuilds([]);
    forall j | 0 <= j < |users| ensures !UserSkipped(configs, users[j].guildId) {
      assert all[j] == users[j].guildId;
      BatchConfigs(users, [], resolve, users[j].guildId);
    }
    UsersFromObserves(db, users, configs, faults, 0, u);
    ObserveUsernamesFromNothing(UserNames(users, 0));
  }

  /** A batch with no queued users is its members phase. */
  lemma OnlyMembers(db: Listings, members: seq<Member>, resolve: Resolver, faults: Faults)
    requires BatchSpec(db, [], members, resolve, faults).Done?
    ensures FirstUnresolved(BatchGuilds([], members), resolve) == |BatchGuilds([], members)|
    ensures BatchSpec(db, [], members, resolve, faults) ==
            MembersFrom(db, members, ConfigsOf(BatchGuilds([], members), resolve), faults, 0)
  {
    var configs := ConfigsOf(BatchGuilds([], members), resolve);
    assert UsersFrom(db, [], configs, faults, 0) == Done(db);
  }

  /**
   * The batch body of member events of one user in one guild with nickname
   * logging on and a healthy store completes: the stored nicknames gain exactly the observed
   * nicknames in turn; from no rows, they are the distinct consecutive
   * nicknames after the first non-empty one, the first row never empty.
   */
  lemma BatchObservesNicknames(db: Listings, members: seq<Member>, resolve: Resolver, faults: Faults, u: UserId, g: GuildId)
    requires ResolverSound(resolve)
    requires NicknameOn(resolve, g)
    requires forall j :: 0 <= j < |members| ==>
               members[j].user.id == u && members[j].guildId == g && faults(MemberUsernameSite(j)) == Healthy &&
               faults(MemberNicknameSite(j)) == Healthy
    ensures BatchSpec(db, [], members, resolve, faults).Done?
    ensures NicknameHistory(BatchSpec(db, [], members, resolve, faults).after, u, g) ==
            ObserveNicknames(NicknameHistory(db, u, g), MemberNicks(members, 0))
    ensures NicknameHistory(db, u, g) == [] ==>
            var h := NicknameHistory(BatchSpec(db, [], members, resolve, faults).after, u, g);
            h == Compress(DropLeadingEmpty(MemberNicks(members, 0))) && NoEmptyFirst(h) && NoAdjacentDuplicates(h)
  {
    BatchSucceeds(db, [], members, resolve, faults);
    var d := BatchGuilds([], members);
    var configs := ConfigsOf(d, resolve);
    OnlyMembers(db, members, resolve, faults);
    if members != [] {
      var all := UserGuilds([]) + MemberGuilds(members);
      assert all[0] == g;
      BatchConfigs([], members, resolve, g);
    }
    if !MemberSkipped(configs, g) {
      MembersFromObserves(db, members, configs, faults, 0, u, g);
    } else {
      assert members == [];
      assert MemberNicks(members, 0) == [];
    }
    ObserveNicknamesFromNothing(MemberNicks(members, 0));
  }

  /**
   * The code runs the username check for a member whenever either logging
   * is on: a member event in a guild with username logging off but
   * nickname logging on still records the username.
   */
  lemma MemberUsernameIgnoresUsernameFlag(m: Member, resolve: Resolver, faults: Faults)
    requires ResolverSound(resolve)
    requires !UsernameOn(resolve, m.guildId) && NicknameOn(resolve, m.guildId)
    requires faults(MemberUsernameSite(0)) == Healthy && faults(MemberNicknameSite(0)) == Healthy
    ensures BatchSpec(Listings(map[], map[]), [], [m], resolve, faults).Done?
    ensures UsernameHistory(BatchSpec(Listings(map[], map[]), [], [m], resolve, faults).after, m.user.id) == [m.user.username]
  {
    FirstMemberEvent(m, resolve, faults);
  }

  /**
   * The mirror case: a member event in a guild with nickname logging off but
   * username logging on still records a non-empty nickname.
   */
  lemma MemberNicknameIgnoresNicknameFlag(m: Member, resolve: Resolver, faults: Faults)
    requires ResolverSound(resolve)
    requires UsernameOn(resolve, m.guildId) && !NicknameOn(resolve, m.guildId)
    requires m.nick != ""
    requires faults(MemberUsernameSite(0)) == Healthy && faults(MemberNicknameSite(0)) == Healthy
    ensures BatchSpec(Listings(map[], map[]), [], [m], resolve, faults).Done?
    ensures NicknameHistory(BatchSpec(Listings(map[], map[]), [], [m], resolve, faults).after, m.user.id, m.guildId) == [m.nick]
  {
    FirstMemberEvent(m, resolve, faults);
  }
}
