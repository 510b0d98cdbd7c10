/**
 * The first phase of a batch: resolving the logging configuration of every
 * guild the batch touches, at most once per guild, in first-appearance order,
 * the users' guilds before the members' guilds.
 */
module Configs {
  import opened Wrappers
  import opened Entities

  /** The configuration resolver: a config for the guild, or None when it fails. */
  type Resolver = GuildId -> Option<LoggingConfig>

  /** The resolver answers with the configuration of the guild it was asked about. */
  ghost predicate ResolverSound(resolve: Resolver)
  {
    forall g :: resolve(g).Some? ==> resolve(g).value.guildId == g
  }

  predicate NoDuplicates(s: seq<GuildId>)
  {
    forall i, j :: 0 <= i < j < |s| ==> s[i] != s[j]
  }

  /** The guilds of s, each once, in the order of their first appearance. */
  function Distinct(s: seq<GuildId>): seq<GuildId>
    decreases |s|
  {
    if s == [] then []
    else
      var p := Distinct(s[..|s| - 1]);
      if s[|s| - 1] in p then p else p + [s[|s| - 1]]
  }

  /** Distinct keeps every guild of s and adds none. */
  lemma {:induction false} DistinctMembers(s: seq<GuildId>, x: GuildId)
    ensures x in Distinct(s) <==> x in s
    decreases |s|
  {
    if s != [] {
      var s' := s[..|s| - 1];
      DistinctMembers(s', x);
      assert s == s' + [s[|s| - 1]];
      DistinctMembers(s', s[|s| - 1]);
    }
  }

  /** Distinct lists each guild once. */
  lemma {:induction false} DistinctNoDuplicates(s: seq<GuildId>)
    ensures NoDuplicates(Distinct(s))
    decreases |s|
  {
    if s != [] {
      DistinctNoDuplicates(s[..|s| - 1]);
    }
  }

  /** The position of the first occurrence of x in s. */
  function FirstIndex(s: seq<GuildId>, x: GuildId): (k: nat)
    requires x in s
    ensures k < |s| && s[k] == x
    ensures forall j :: 0 <= j < k ==> s[j] != x
  {
    if s[0] == x then 0 else 1 + FirstIndex(s[1..], x)
  }

  /** One more guild is appended exactly when it has not been seen. */
  lemma DistinctSnoc(s: seq<GuildId>, g: GuildId)
    ensures Distinct(s + [g]) == if g in s then Distinct(s) else Distinct(s) + [g]
  {
    assert (s + [g])[..|s|] == s;
    DistinctMembers(s, g);
  }

  /** Resolving a prefix of the guilds visits a prefix of what the whole list visits. */
  lemma {:induction false} DistinctPrefix(a: seq<GuildId>, b: seq<GuildId>)
    ensures Distinct(a) <= Distinct(a + b)
    decreases |b|
  {
    if b != [] {
      var b' := b[..|b| - 1];
      assert (a + b)[..|a + b| - 1] == a + b';
      DistinctPrefix(a, b');
    } else {
      assert a + b == a;
    }
  }

  lemma FirstIndexInPrefix(s: seq<GuildId>, m: nat, x: GuildId)
    requires m <= |s| && x in s[..m]
    ensures FirstIndex(s, x) == FirstIndex(s[..m], x)
  {
    var k1, k2 := FirstIndex(s, x), FirstIndex(s[..m], x);
    assert s[..m][k2] == s[k2];
    assert k1 <= k2;
    assert s[..m][k1] == s[k1];
  }

  /** Of two guilds that Distinct lists, the earlier one appears first in s. */
  lemma {:induction false} DistinctOrder(s: seq<GuildId>, i: nat, j: nat)
    requires i < j < |Distinct(s)|
    ensures Distinct(s)[i] in s && Distinct(s)[j] in s
    ensures FirstIndex(s, Distinct(s)[i]) < FirstIndex(s, Distinct(s)[j])
    decreases |s|
  {
    assert s != [];
    var n := |s| - 1;
    var s' := s[..n];
    var p := Distinct(s');
    var d := Distinct(s);
    assert s == s' + [s[n]];
    DistinctSnoc(s', s[n]);
    assert d[i] == p[i];
    DistinctMembers(s', d[i]);
    FirstIndexInPrefix(s, n, d[i]);
    if j < |p| {
      assert d[j] == p[j];
      DistinctOrder(s', i, j);
      DistinctMembers(s', d[j]);
      FirstIndexInPrefix(s, n, d[j]);
    } else {
      assert d[j] == s[n] && s[n] !in s';
      assert forall k :: 0 <= k < n ==> s[k] == s'[k];
    }
  }

  /** The guilds come out in the order in which they first appear. */
  lemma DistinctFirstAppearance(s: seq<GuildId>)
    ensures forall x :: x in Distinct(s) ==> x in s
    ensures forall i, j :: 0 <= i < j < |Distinct(s)| ==>
              FirstIndex(s, Distinct(s)[i]) < FirstIndex(s, Distinct(s)[j])
  {
    forall x | x in Distinct(s) ensures x in s {
      DistinctMembers(s, x);
    }
    forall i, j | 0 <= i < j < |Distinct(s)|
      ensures FirstIndex(s, Distinct(s)[i]) < FirstIndex(s, Distinct(s)[j])
    {
      DistinctOrder(s, i, j);
    }
  }

  function UserGuilds(users: seq<UserGuildPair>): (r: seq<GuildId>)
    ensures |r| == |users| && forall i :: 0 <= i < |users| ==> r[i] == users[i].guildId
  {
    seq(|users|, i requires 0 <= i < |users| => users[i].guildId)
  }

  function MemberGuilds(members: seq<Member>): (r: seq<GuildId>)
    ensures |r| == |members| && forall i :: 0 <= i < |members| ==> r[i] == members[i].guildId
  {
    seq(|members|, i requires 0 <= i < |members| => members[i].guildId)
  }

  /** The guilds a batch must resolve, in the order the batch resolves them. */
  function BatchGuilds(users: seq<UserGuildPair>, members: seq<Member>): seq<GuildId>
  {
    Distinct(UserGuilds(users) + MemberGuilds(members))
  }

  /** The first configuration for guild g, as the scans over the config slice find it. */
  function ConfigFor(configs: seq<LoggingConfig>, g: GuildId): (r: Option<LoggingConfig>)
    ensures r.None? <==> forall i :: 0 <= i < |configs| ==> configs[i].guildId != g
    ensures r.Some? ==> r.value in configs && r.value.guildId == g
  {
    if configs == [] then None
    else if configs[0].guildId == g then Some(configs[0])
    else ConfigFor(configs[1..], g)
  }

  /** The linear scan of the config slice for guild g. */
  method FindConfig(configs: seq<LoggingConfig>, g: GuildId) returns (found: Option<LoggingConfig>)
    ensures found == ConfigFor(configs, g)
  {
    var i := 0;
    while i < |configs|
      invariant 0 <= i <= |configs|
      invariant ConfigFor(configs, g) == ConfigFor(configs[i..], g)
    {
      if configs[i].guildId == g {
        return Some(configs[i]);
      }
      assert configs[i..][1..] == configs[i + 1..];
      i := i + 1;
    }
    found := None;
  }

  /** The position of the first guild of d the resolver fails on, or |d|. */
  function FirstUnresolved(d: seq<GuildId>, resolve: Resolver): (k: nat)
    ensures k <= |d|
    ensures forall i :: 0 <= i < k ==> resolve(d[i]).Some?
    ensures k < |d| ==> resolve(d[k]).None?
  {
    if d == [] || resolve(d[0]).None? then 0
    else 1 + FirstUnresolved(d[1..], resolve)
  }

  /** The configs of the guilds of d, in order. */
  function ConfigsOf(d: seq<GuildId>, resolve: Resolver): (configs: seq<LoggingConfig>)
    requires forall i :: 0 <= i < |d| ==> resolve(d[i]).Some?
    ensures |configs| == |d|
    decreases |d|
  {
    if d == [] then []
    else ConfigsOf(d[..|d| - 1], resolve) + [resolve(d[|d| - 1]).value]
  }

  lemma {:induction false} ConfigsOfAt(d: seq<GuildId>, resolve: Resolver, i: nat)
    requires forall i :: 0 <= i < |d| ==> resolve(d[i]).Some?
    requires i < |d|
    ensures Some(ConfigsOf(d, resolve)[i]) == resolve(d[i])
    decreases |d|
  {
    if i < |d| - 1 {
      ConfigsOfAt(d[..|d| - 1], resolve, i);
    }
  }

  /**
   * Looking a guild up in the resolved configs gives what the resolver gave
   * for it, and nothing for a guild that was not resolved.
   */
  lemma ConfigForResolved(d: seq<GuildId>, resolve: Resolver, g: GuildId)
    requires ResolverSound(resolve)
    requires forall i :: 0 <= i < |d| ==> resolve(d[i]).Some?
    ensures ConfigFor(ConfigsOf(d, resolve), g) == if g in d then resolve(g) else None
  {
    var configs := ConfigsOf(d, resolve);
    forall i | 0 <= i < |d| ensures configs[i] == resolve(d[i]).value && configs[i].guildId == d[i] {
      ConfigsOfAt(d, resolve, i);
    }
    var r := ConfigFor(configs, g);
    if g in d {
      var i :| 0 <= i < |d| && d[i] == g;
      assert configs[i].guildId == g;
    }
    if r.Some? {
      var i :| 0 <= i < |configs| && configs[i] == r.value;
      assert d[i] == g;
    }
  }

  /** The calls so far are the distinct guilds of s, all resolved, and configs holds their configs. */
  ghost predicate ResolvedSoFar(s: seq<GuildId>, calls: seq<GuildId>, configs: seq<LoggingConfig>, resolve: Resolver)
  {
    && calls == Distinct(s)
    && (forall j :: 0 <= j < |calls| ==> resolve(calls[j]).Some?)
    && configs == ConfigsOf(calls, resolve)
  }

  /** The calls are a prefix of the distinct guilds of prior + gs ending at a new guild of gs that failed. */
  ghost predicate StoppedIn(prior: seq<GuildId>, gs: seq<GuildId>, calls: seq<GuildId>, resolve: Resolver)
  {
    && calls != [] && calls <= Distinct(prior + gs)
    && (forall j :: 0 <= j < |calls| - 1 ==> resolve(calls[j]).Some?)
    && resolve(calls[|calls| - 1]).None?
    && calls[|calls| - 1] in gs && calls[|calls| - 1] !in prior
  }

  /** A guild whose config is already in the slice is skipped: nothing changes. */
  lemma ResolveKnown(s: seq<GuildId>, g: GuildId, calls: seq<GuildId>, configs: seq<LoggingConfig>, resolve: Resolver)
    requires ResolverSound(resolve)
    requires ResolvedSoFar(s, calls, configs, resolve)
    requires ConfigFor(configs, g).Some?
    ensures ResolvedSoFar(s + [g], calls, configs, resolve)
  {
    ConfigForResolved(calls, resolve, g);
    DistinctMembers(s, g);
    DistinctSnoc(s, g);
  }

  /** A guild not yet in the slice that resolves is appended to the slice and to the call log. */
  lemma ResolveNew(s: seq<GuildId>, g: GuildId, calls: seq<GuildId>, configs: seq<LoggingConfig>, resolve: Resolver)
    requires ResolverSound(resolve)
    requires ResolvedSoFar(s, calls, configs, resolve)
    requires ConfigFor(configs, g).None? && resolve(g).Some?
    ensures ResolvedSoFar(s + [g], calls + [g], configs + [resolve(g).value], resolve)
  {
    ConfigForResolved(calls, resolve, g);
    DistinctMembers(s, g);
    DistinctSnoc(s, g);
    assert (calls + [g])[..|calls|] == calls;
  }

  /** A guild of gs that is new after prior + gs[..i] extends the distinct list towards that of prior + gs. */
  lemma NewGuildPrefix(prior: seq<GuildId>, gs: seq<GuildId>, i: nat)
    requires i < |gs| && gs[i] !in prior + gs[..i]
    ensures Distinct(prior + gs[..i]) + [gs[i]] <= Distinct(prior + gs)
  {
    assert prior + gs[..i + 1] == (prior + gs[..i]) + [gs[i]];
    DistinctSnoc(prior + gs[..i], gs[i]);
    DistinctPrefix(prior + gs[..i + 1], gs[i + 1..]);
    assert (prior + gs[..i + 1]) + gs[i + 1..] == prior + gs;
  }

  /** When the resolver fails on a guild not yet in the slice, the call log stops there. */
  lemma ResolveFails(prior: seq<GuildId>, gs: seq<GuildId>, i: nat, calls: seq<GuildId>, configs: seq<LoggingConfig>,
                     resolve: Resolver)
    requires ResolverSound(resolve)
    requires i < |gs| && ResolvedSoFar(prior + gs[..i], calls, configs, resolve)
    requires ConfigFor(configs, gs[i]).None? && resolve(gs[i]).None?
    ensures StoppedIn(prior, gs, calls + [gs[i]], resolve)
  {
    var g := gs[i];
    ConfigForResolved(calls, resolve, g);
    DistinctMembers(prior + gs[..i], g);
    assert g !in prior + gs[..i];
    NewGuildPrefix(prior, gs, i);
    var calls' := calls + [g];
    forall j | 0 <= j < |calls'| - 1 ensures resolve(calls'[j]).Some? {
      assert calls'[j] == calls[j];
    }
  }

  /**
   * One of the two labelled loops of lines 636-666: for each guild of gs,
   * scan the config slice and skip the guild when it is already there;
   * otherwise ask the resolver and append its config, stopping at the first
   * failure. `calls` grows by the guilds the resolver was asked about.
   */
  method AppendConfigs(ghost prior: seq<GuildId>, configs: seq<LoggingConfig>, calls: seq<GuildId>,
                       gs: seq<GuildId>, resolve: Resolver)
    returns (ok: bool, configs': seq<LoggingConfig>, calls': seq<GuildId>)
    requires ResolverSound(resolve)
    requires ResolvedSoFar(prior, calls, configs, resolve)
    ensures ok ==> ResolvedSoFar(prior + gs, calls', configs', resolve)
    ensures !ok ==> StoppedIn(prior, gs, calls', resolve)
  {
    configs', calls' := configs, calls;
    var i := 0;
    assert prior + gs[..0] == prior;
    while i < |gs|
      invariant 0 <= i <= |gs|
      invariant ResolvedSoFar(prior + gs[..i], calls', configs', resolve)
    {
      var g := gs[i];
      assert prior + gs[..i + 1] == (prior + gs[..i]) + [g];
      var c := FindConfig(configs', g);
      if c.None? {
        var r := resolve(g);
        if r.None? {
          ResolveFails(prior, gs, i, calls', configs', resolve);
          return false, configs', calls' + [g];
        }
        ResolveNew(prior + gs[..i], g, calls', configs', resolve);
        configs', calls' := configs' + [r.value], calls' + [g];
      } else {
        ResolveKnown(prior + gs[..i], g, calls', configs', resolve);
      }
      i := i + 1;
    }
    assert gs[..|gs|] == gs;
    ok := true;
  }

  /** A prefix of d whose last guild is the first to fail pins down FirstUnresolved. */
  lemma ResolvedUpTo(d: seq<GuildId>, calls: seq<GuildId>, resolve: Resolver)
    requires calls != [] && calls <= d
    requires forall j :: 0 <= j < |calls| - 1 ==> resolve(calls[j]).Some?
    requires resolve(calls[|calls| - 1]).None?
    ensures FirstUnresolved(d, resolve) == |calls| - 1
    ensures calls == d[..|calls|]
  {
    var n := |calls| - 1;
    assert d[n] == calls[n];
    assert forall j :: 0 <= j < n ==> d[j] == calls[j];
    assert forall j :: 0 <= j < n ==> resolve(d[j]).Some?;
  }

  /**
   * The guilds the resolver is asked about in one batch: each batch guild in
   * order, up to and including the first one it fails on.
   */
  function ResolverCalls(users: seq<UserGuildPair>, members: seq<Member>, resolve: Resolver): seq<GuildId>
  {
    var d := BatchGuilds(users, members);
    var k := FirstUnresolved(d, resolve);
    if k == |d| then d else d[..k + 1]
  }

  /**
   * The resolver is asked about each guild at most once, only about guilds of
   * the batch, in first-appearance order, and about every batch guild unless
   * it fails first.
   */
  lemma ResolverCallsFacts(users: seq<UserGuildPair>, members: seq<Member>, resolve: Resolver)
    ensures var calls := ResolverCalls(users, members, resolve);
            var all := UserGuilds(users) + MemberGuilds(members);
            && NoDuplicates(calls)
            && calls <= BatchGuilds(users, members)
            && (forall g :: g in calls ==> g in all)
            && (forall i, j :: 0 <= i < j < |calls| ==> FirstIndex(all, calls[i]) < FirstIndex(all, calls[j]))
            && ((forall g :: g in all ==> resolve(g).Some?) ==> forall g :: g in all ==> g in calls)
  {
    var all := UserGuilds(users) + MemberGuilds(members);
    var d := Distinct(all);
    var calls := ResolverCalls(users, members, resolve);
    DistinctNoDuplicates(all);
    DistinctFirstAppearance(all);
    forall g | g in calls ensures g in all {
      DistinctMembers(all, g);
    }
    if forall g :: g in all ==> resolve(g).Some? {
      forall i | 0 <= i < |d| ensures resolve(d[i]).Some? {
        DistinctMembers(all, d[i]);
      }
      assert calls == d;
      forall g | g in all ensures g in calls {
        DistinctMembers(all, g);
      }
    }
  }

  /** A prefix of a list without duplicates has none. */
  lemma NoDuplicatesPrefix(d: seq<GuildId>, calls: seq<GuildId>)
    requires NoDuplicates(d) && calls <= d
    ensures NoDuplicates(calls)
  {
    assert forall i :: 0 <= i < |calls| ==> calls[i] == d[i];
  }

  lemma PrefixTransitive(a: seq<GuildId>, b: seq<GuildId>, c: seq<GuildId>)
    requires a <= b && b <= c
    ensures a <= c
  {
    assert forall i :: 0 <= i < |a| ==> a[i] == b[i] == c[i];
  }

  /** A resolution that stopped at the last guild of calls, a prefix of the batch guilds. */
  lemma StoppedAt(users: seq<UserGuildPair>, members: seq<Member>, resolve: Resolver, calls: seq<GuildId>)
    requires calls != [] && calls <= BatchGuilds(users, members)
    requires forall j :: 0 <= j < |calls| - 1 ==> resolve(calls[j]).Some?
    requires resolve(calls[|calls| - 1]).None?
    ensures var d := BatchGuilds(users, members);
            && FirstUnresolved(d, resolve) == |calls| - 1
            && d[|calls| - 1] == calls[|calls| - 1]
            && calls == ResolverCalls(users, members, resolve)
            && NoDuplicates(calls)
  {
    var d := BatchGuilds(users, members);
    ResolvedUpTo(d, calls, resolve);
    DistinctNoDuplicates(UserGuilds(users) + MemberGuilds(members));
    NoDuplicatesPrefix(d, calls);
  }

  /** Resolution stopped among the users' guilds. */
  lemma StoppedInUsers(users: seq<UserGuildPair>, members: seq<Member>, resolve: Resolver, calls: seq<GuildId>)
    requires StoppedIn([], UserGuilds(users), calls, resolve)
    ensures var d := BatchGuilds(users, members);
            var k := FirstUnresolved(d, resolve);
            && k < |d|
            && calls == ResolverCalls(users, members, resolve)
            && d[k] in UserGuilds(users)
            && NoDuplicates(calls)
  {
    UsersCallsInBatch(users, members, resolve, calls);
    StoppedAt(users, members, resolve, calls);
  }

  /** The calls made for the users' guilds are a prefix of the batch's guilds. */
  lemma UsersCallsInBatch(users: seq<UserGuildPair>, members: seq<Member>, resolve: Resolver, calls: seq<GuildId>)
    requires StoppedIn([], UserGuilds(users), calls, resolve)
    ensures calls <= BatchGuilds(users, members)
  {
    var ug := UserGuilds(users);
    assert [] + ug == ug;
    DistinctPrefix(ug, MemberGuilds(members));
    PrefixTransitive(calls, Distinct(ug), BatchGuilds(users, members));
  }

  /** Resolution stopped among the members' guilds. */
  lemma StoppedInMembers(users: seq<UserGuildPair>, members: seq<Member>, resolve: Resolver, calls: seq<GuildId>)
    requires StoppedIn(UserGuilds(users), MemberGuilds(members), calls, resolve)
    ensures var d := BatchGuilds(users, members);
            var k := FirstUnresolved(d, resolve);
            && k < |d|
            && calls == ResolverCalls(users, members, resolve)
            && d[k] !in UserGuilds(users)
            && NoDuplicates(calls)
  {
    StoppedAt(users, members, resolve, calls);
  }

  /** Resolution went through every guild of the batch. */
  lemma ResolvedAll(users: seq<UserGuildPair>, members: seq<Member>, resolve: Resolver, calls: seq<GuildId>, configs: seq<LoggingConfig>)
    requires ResolvedSoFar(UserGuilds(users) + MemberGuilds(members), calls, configs, resolve)
    ensures var d := BatchGuilds(users, members);
            && FirstUnresolved(d, resolve) == |d|
            && calls == ResolverCalls(users, members, resolve)
            && configs == ConfigsOf(d, resolve)
            && NoDuplicates(calls)
  {
    DistinctNoDuplicates(UserGuilds(users) + MemberGuilds(members));
  }

  /** No two configs of the list are for the same guild. */
  predicate UniqueGuilds(configs: seq<LoggingConfig>)
  {
    forall i, j :: 0 <= i < j < |configs| ==> configs[i].guildId != configs[j].guildId
  }

  /** The configs of a list of distinct guilds, from a sound resolver, are for distinct guilds. */
  lemma ConfigsOfUniqueGuilds(d: seq<GuildId>, resolve: Resolver)
    requires ResolverSound(resolve)
    requires NoDuplicates(d)
    requires forall i :: 0 <= i < |d| ==> resolve(d[i]).Some?
    ensures UniqueGuilds(ConfigsOf(d, resolve))
  {
    var configs := ConfigsOf(d, resolve);
    forall i | 0 <= i < |d| ensures configs[i].guildId == d[i] {
      ConfigsOfAt(d, resolve, i);
    }
  }

  /**
   * Lines 636-666: resolve the configs of the users' guilds, then of the
   * members' guilds, each guild at most once, and stop at the first resolver
   * error. `calls` lists the guilds the resolver was asked about, in order.
   */
  method ResolveConfigs(users: seq<UserGuildPair>, members: seq<Member>, resolve: Resolver)
    returns (err: Option<BatchError>, configs: seq<LoggingConfig>, calls: seq<GuildId>)
    requires ResolverSound(resolve)
    ensures var d := BatchGuilds(users, members);
            var k := FirstUnresolved(d, resolve);
            && (err.None? <==> k == |d|)
            && calls == ResolverCalls(users, members, resolve)
            && (err.None? ==> configs == ConfigsOf(d, resolve))
            && (err.Some? ==> err == Some(if d[k] in UserGuilds(users) then UsersConfigs else MembersConfigs))
    ensures NoDuplicates(calls)
    ensures err.None? ==> UniqueGuilds(configs)
  {
    var ug, mg := UserGuilds(users), MemberGuilds(members);
    assert ResolvedSoFar([], [], [], resolve);
    var ok;
    ok, configs, calls := AppendConfigs([], [], [], ug, resolve);
    if !ok {
      StoppedInUsers(users, members, resolve, calls);
      return Some(UsersConfigs), configs, calls;
    }
    assert [] + ug == ug;
    ok, configs, calls := AppendConfigs(ug, configs, calls, mg, resolve);
    if !ok {
      StoppedInMembers(users, members, resolve, calls);
      return Some(MembersConfigs), configs, calls;
    }
    ResolvedAll(users, members, resolve, calls, configs);
    ConfigsOfUniqueGuilds(calls, resolve);
    err := None;
  }
}
