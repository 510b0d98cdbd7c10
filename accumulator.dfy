/**
 * EvtProcesser: the single consumer that owns the two queues. Events are
 * classified into queued presence users and queued members; on each timer
 * tick the queues are handed to ProcessBatch and cleared only when the
 * batch committed.
 */
module Accumulator {
  import opened Wrappers
  import opened Entities
  import opened History
  import opened Store
  import opened Configs
  import opened Batch

  /** What one event adds to the queued users: only a presence update with a username. */
  function EventUsers(e: Event): seq<UserGuildPair>
  {
    if e.PresenceUpdate? && e.presence.user.username != "" then
      [UserGuildPair(e.presence.guildId, e.presence.user)]
    else []
  }

  /** What one event adds to the queued members: the member of a member update, add or fetch. */
  function EventMembers(e: Event): seq<Member>
  {
    match e
    case GuildMemberUpdate(m) => [m]
    case GuildMemberAdd(m) => [m]
    case MemberFetched(m) => [m]
    case _ => []
  }

  /** The queued users a sequence of events produces, in arrival order. */
  function UsersOf(events: seq<Event>): seq<UserGuildPair>
    decreases |events|
  {
    if events == [] then []
    else UsersOf(events[..|events| - 1]) + EventUsers(events[|events| - 1])
  }

  /** The queued members a sequence of events produces, in arrival order. */
  function MembersOf(events: seq<Event>): seq<Member>
    decreases |events|
  {
    if events == [] then []
    else MembersOf(events[..|events| - 1]) + EventMembers(events[|events| - 1])
  }

  /**
   * The classification of one event: a presence update is kept (as guild and
   * user) unless its username is empty, the three member events are kept as
   * members, and anything else is ignored. No event lands in both queues.
   */
  lemma Classify(e: Event)
    ensures |EventUsers(e)| + |EventMembers(e)| <= 1
    ensures EventUsers(e) != [] <==> e.PresenceUpdate? && e.presence.user.username != ""
    ensures EventUsers(e) != [] ==> EventUsers(e) == [UserGuildPair(e.presence.guildId, e.presence.user)]
    ensures EventMembers(e) != [] <==> e.GuildMemberUpdate? || e.GuildMemberAdd? || e.MemberFetched?
    ensures EventMembers(e) != [] ==> EventMembers(e) == [e.member]
  {
  }

  /** Queues of concatenated event streams are the concatenated queues. */
  lemma {:induction false} UsersOfAppend(a: seq<Event>, b: seq<Event>)
    ensures UsersOf(a + b) == UsersOf(a) + UsersOf(b)
    decreases |b|
  {
    if b != [] {
      var b' := b[..|b| - 1];
      assert (a + b)[..|a + b| - 1] == a + b';
      assert (a + b)[|a + b| - 1] == b[|b| - 1];
      UsersOfAppend(a, b');
    } else {
      assert a + b == a;
    }
  }

  lemma {:induction false} MembersOfAppend(a: seq<Event>, b: seq<Event>)
    ensures MembersOf(a + b) == MembersOf(a) + MembersOf(b)
    decreases |b|
  {
    if b != [] {
      var b' := b[..|b| - 1];
      assert (a + b)[..|a + b| - 1] == a + b';
      assert (a + b)[|a + b| - 1] == b[|b| - 1];
      MembersOfAppend(a, b');
    } else {
      assert a + b == a;
    }
  }

  /** Every queued member is the member of some delivered event. */
  lemma {:induction false} MembersOfFromEvents(events: seq<Event>, k: nat)
    requires k < |MembersOf(events)|
    ensures exists i :: 0 <= i < |events| && EventMembers(events[i]) == [MembersOf(events)[k]]
    decreases |events|
  {
    var p := events[..|events| - 1];
    var e := events[|events| - 1];
    if k < |MembersOf(p)| {
      MembersOfFromEvents(p, k);
      var i :| 0 <= i < |p| && EventMembers(p[i]) == [MembersOf(p)[k]];
      assert events[i] == p[i];
    } else {
      Classify(e);
      assert EventMembers(events[|events| - 1]) == [MembersOf(events)[k]];
    }
  }

  /**
   * Within one tick presence users are recorded before members: a member
   * update with username "B" that arrives before a presence update with "C"
   * queues into a batch whose body, at lines 669 and 689, stores "C" before "B".
   */
  lemma PresenceBeforeMembers(db: Listings, resolve: Resolver, faults: Faults)
    requires ResolverSound(resolve) && resolve(7) == Some(LoggingConfig(7, true, true))
    requires faults(UserSite(0)) == Healthy && faults(MemberUsernameSite(0)) == Healthy && faults(MemberNicknameSite(0)) == Healthy
    requires UsernameHistory(db, 1) == ["A"]
    ensures var evs := [GuildMemberUpdate(Member(7, User(1, "B"), "")), PresenceUpdate(Presence(7, User(1, "C"), ""))];
            var outcome := BatchSpec(db, UsersOf(evs), MembersOf(evs), resolve, faults);
            && outcome.Done?
            && UsernameHistory(outcome.after, 1) == ["A", "C", "B"]
            && UsernameHistory(outcome.after, 1) != ObserveUsernames(["A"], ["B", "C"])
  {
    var m := Member(7, User(1, "B"), "");
    var evs := [GuildMemberUpdate(m), PresenceUpdate(Presence(7, User(1, "C"), ""))];
    var first := [evs[0]];
    assert evs[..|evs| - 1] == first && first[..|first| - 1] == [];
    assert UsersOf(first) == UsersOf([]) + EventUsers(evs[0]) == [];
    assert MembersOf(first) == MembersOf([]) + EventMembers(evs[0]) == [] + [m] == [m];
    assert UsersOf(evs) == UsersOf(first) + EventUsers(evs[1]) == [UserGuildPair(7, User(1, "C"))];
    assert MembersOf(evs) == MembersOf(first) + EventMembers(evs[1]) == [m];
    MembersAfterUsers(db, resolve, faults);
  }

  /** The one input of the loop: an event from the channel, or a timer tick with that tick's store behaviour. */
  datatype Input = Deliver(e: Event) | Timer(resolve: Resolver, faults: Faults, tx: TxFault)

  /** The state the loop and the database share. */
  datatype LoopState = LoopState(db: Listings, users: seq<UserGuildPair>, members: seq<Member>)

  /** One iteration of the loop. */
  function Step(s: LoopState, input: Input): LoopState
  {
    match input
    case Deliver(e) => LoopState(s.db, s.users + EventUsers(e), s.members + EventMembers(e))
    case Timer(resolve, faults, tx) =>
      match TxOutcome(s.db, s.users, s.members, resolve, faults, tx)
      case Done(after) => LoopState(after, [], [])
      case Failed(_) => s
  }

  /** The loop run over a sequence of inputs. */
  function RunSpec(s: LoopState, inputs: seq<Input>): LoopState
    decreases |inputs|
  {
    if inputs == [] then s else Step(RunSpec(s, inputs[..|inputs| - 1]), inputs[|inputs| - 1])
  }

  /** The events among the inputs, in order. */
  function Delivered(inputs: seq<Input>): seq<Event>
    decreases |inputs|
  {
    if inputs == [] then []
    else
      var x := inputs[|inputs| - 1];
      Delivered(inputs[..|inputs| - 1]) + (if x.Deliver? then [x.e] else [])
  }

  /** A timer tick commits on state s. */
  predicate Commits(s: LoopState, input: Input)
  {
    input.Timer? && TxOutcome(s.db, s.users, s.members, input.resolve, input.faults, input.tx).Done?
  }

  /** No tick of the run committed, so the queues only grew by the delivered events. */
  predicate Untouched(s: LoopState, inputs: seq<Input>, r: LoopState)
  {
    r.users == s.users + UsersOf(Delivered(inputs)) && r.members == s.members + MembersOf(Delivered(inputs))
  }

  /** Tick k of the inputs committed. */
  predicate CommittedAt(s: LoopState, inputs: seq<Input>, k: nat)
    requires k < |inputs|
  {
    Commits(RunSpec(s, inputs[..k]), inputs[k])
  }

  /** The queues hold exactly the events delivered after input k. */
  predicate QueuesSince(inputs: seq<Input>, k: nat, r: LoopState)
    requires k < |inputs|
  {
    r.users == UsersOf(Delivered(inputs[k + 1..])) && r.members == MembersOf(Delivered(inputs[k + 1..]))
  }

  /** No tick of the inputs committed. */
  predicate NeverCommitted(s: LoopState, inputs: seq<Input>)
  {
    forall k :: 0 <= k < |inputs| ==> !CommittedAt(s, inputs, k)
  }

  /** Tick k is the last tick of the inputs that committed. */
  predicate LastCommit(s: LoopState, inputs: seq<Input>, k: nat)
  {
    k < |inputs| && CommittedAt(s, inputs, k) && forall k' :: k < k' < |inputs| ==> !CommittedAt(s, inputs, k')
  }

  /** Tick k is the last commit, and the queues hold exactly the events delivered after it. */
  predicate SinceCommit(s: LoopState, inputs: seq<Input>, k: nat, r: LoopState)
  {
    LastCommit(s, inputs, k) && QueuesSince(inputs, k, r)
  }

  /**
   * Either no tick committed and the queues hold what was queued before plus
   * every event delivered since, or the queues hold exactly the events
   * delivered after the last tick that committed.
   */
  predicate QueuesAccounted(s: LoopState, inputs: seq<Input>)
  {
    (NeverCommitted(s, inputs) && Untouched(s, inputs, RunSpec(s, inputs)))
    || exists k: nat :: k < |inputs| && SinceCommit(s, inputs, k, RunSpec(s, inputs))
  }

  /** The events of one more input. */
  lemma DeliveredSnoc(t: seq<Input>, x: Input)
    ensures Delivered(t + [x]) == Delivered(t) + Delivered([x])
  {
    assert (t + [x])[..|t|] == t;
    assert Delivered([x]) == (if x.Deliver? then [x.e] else []) by {
      assert [x][..0] == [];
    }
  }

  /** The queues one input adds on its own. */
  lemma DeliveredOne(x: Input)
    ensures UsersOf(Delivered([x])) == (if x.Deliver? then EventUsers(x.e) else [])
    ensures MembersOf(Delivered([x])) == (if x.Deliver? then EventMembers(x.e) else [])
  {
    var one := [x];
    assert one[..0] == [];
    assert Delivered(one) == Delivered([]) + (if x.Deliver? then [x.e] else []);
    if x.Deliver? {
      var es := [x.e];
      assert es[..0] == [];
      assert UsersOf(es) == UsersOf([]) + EventUsers(x.e);
      assert MembersOf(es) == MembersOf([]) + EventMembers(x.e);
    } else {
      assert Delivered(one) == [];
    }
  }

  /** An input that does not commit adds the queues of its event, if any. */
  lemma StepQueues(prev: LoopState, x: Input)
    requires !Commits(prev, x)
    ensures Step(prev, x).users == prev.users + (if x.Deliver? then EventUsers(x.e) else [])
    ensures Step(prev, x).members == prev.members + (if x.Deliver? then EventMembers(x.e) else [])
  {
    if x.Timer? {
      assert TxOutcome(prev.db, prev.users, prev.members, x.resolve, x.faults, x.tx).Failed?;
      assert prev.users + [] == prev.users;
      assert prev.members + [] == prev.members;
    }
  }

  /** Appending one input to a run appends the queues of its event, if any. */
  lemma QueuesSnoc(t: seq<Input>, x: Input)
    ensures UsersOf(Delivered(t + [x])) == UsersOf(Delivered(t)) + (if x.Deliver? then EventUsers(x.e) else [])
    ensures MembersOf(Delivered(t + [x])) == MembersOf(Delivered(t)) + (if x.Deliver? then EventMembers(x.e) else [])
  {
    DeliveredSnoc(t, x);
    DeliveredOne(x);
    UsersOfAppend(Delivered(t), Delivered([x]));
    MembersOfAppend(Delivered(t), Delivered([x]));
  }

  /** Queues that hold a base plus the events of t, grown by the event of x, hold the base plus the events of t + [x]. */
  lemma QueuesGrow(prev: LoopState, next: LoopState, t: seq<Input>, x: Input, users: seq<UserGuildPair>, members: seq<Member>)
    requires prev.users == users + UsersOf(Delivered(t)) && prev.members == members + MembersOf(Delivered(t))
    requires next.users == prev.users + (if x.Deliver? then EventUsers(x.e) else [])
    requires next.members == prev.members + (if x.Deliver? then EventMembers(x.e) else [])
    ensures next.users == users + UsersOf(Delivered(t + [x]))
    ensures next.members == members + MembersOf(Delivered(t + [x]))
  {
    QueuesSnoc(t, x);
    var eu := if x.Deliver? then EventUsers(x.e) else [];
    var em := if x.Deliver? then EventMembers(x.e) else [];
    assert users + UsersOf(Delivered(t)) + eu == users + (UsersOf(Delivered(t)) + eu);
    assert members + MembersOf(Delivered(t)) + em == members + (MembersOf(Delivered(t)) + em);
  }

  /** The run over one more input is one more step. */
  lemma RunSpecSnoc(s: LoopState, inputs: seq<Input>, i: nat)
    requires i < |inputs|
    ensures RunSpec(s, inputs[..i + 1]) == Step(RunSpec(s, inputs[..i]), inputs[i])
  {
    assert inputs[..i + 1][..i] == inputs[..i];
  }

  /** The run over p + [x] is one more step after the run over p. */
  lemma RunSpecAppend(s: LoopState, p: seq<Input>, x: Input)
    ensures RunSpec(s, p + [x]) == Step(RunSpec(s, p), x)
  {
    assert (p + [x])[..|p|] == p;
  }

  /** One more input does not change whether an earlier tick committed. */
  lemma CommitPersists(s: LoopState, p: seq<Input>, x: Input, k: nat)
    requires k < |p|
    ensures CommittedAt(s, p + [x], k) == CommittedAt(s, p, k)
  {
    assert (p + [x])[..k] == p[..k];
    assert (p + [x])[k] == p[k];
  }

  /** The tick of the last input committed exactly when it commits on the state the rest of the inputs leave. */
  lemma CommitLast(s: LoopState, p: seq<Input>, x: Input)
    ensures CommittedAt(s, p + [x], |p|) == Commits(RunSpec(s, p), x)
  {
    assert (p + [x])[..|p|] == p;
    assert (p + [x])[|p|] == x;
  }

  /** An input that does not commit keeps a run free of commits. */
  lemma NeverCommittedStep(s: LoopState, p: seq<Input>, x: Input)
    requires NeverCommitted(s, p)
    requires !Commits(RunSpec(s, p), x)
    ensures NeverCommitted(s, p + [x])
  {
    forall k | 0 <= k < |p + [x]|
      ensures !CommittedAt(s, p + [x], k)
    {
      if k < |p| {
        CommitPersists(s, p, x, k);
      } else {
        CommitLast(s, p, x);
      }
    }
  }

  /** An input that does not commit keeps the last commit the last one. */
  lemma LastCommitStep(s: LoopState, p: seq<Input>, x: Input, k: nat)
    requires LastCommit(s, p, k)
    requires !Commits(RunSpec(s, p), x)
    ensures LastCommit(s, p + [x], k)
  {
    CommitPersists(s, p, x, k);
    forall k' | k < k' < |p + [x]|
      ensures !CommittedAt(s, p + [x], k')
    {
      if k' < |p| {
        CommitPersists(s, p, x, k');
      } else {
        CommitLast(s, p, x);
      }
    }
  }

  /** An input that commits is the last commit of the run it ends. */
  lemma LastCommitNew(s: LoopState, p: seq<Input>, x: Input)
    requires Commits(RunSpec(s, p), x)
    ensures LastCommit(s, p + [x], |p|)
  {
    CommitLast(s, p, x);
  }

  /** An input that does not commit appends its event, if any, to the queues since tick k. */
  lemma QueuesSinceStep(s: LoopState, p: seq<Input>, x: Input, k: nat)
    requires k < |p| && QueuesSince(p, k, RunSpec(s, p))
    requires !Commits(RunSpec(s, p), x)
    ensures QueuesSince(p + [x], k, RunSpec(s, p + [x]))
  {
    var prev := RunSpec(s, p);
    RunSpecAppend(s, p, x);
    StepQueues(prev, x);
    assert (p + [x])[k + 1..] == p[k + 1..] + [x];
    QueuesGrow(prev, RunSpec(s, p + [x]), p[k + 1..], x, [], []);
  }

  /** An input that commits empties the queues: it is the last commit, and nothing was delivered after it. */
  lemma SinceCommitNew(s: LoopState, p: seq<Input>, x: Input)
    requires Commits(RunSpec(s, p), x)
    ensures SinceCommit(s, p + [x], |p|, RunSpec(s, p + [x]))
  {
    LastCommitNew(s, p, x);
    RunSpecAppend(s, p, x);
    assert (p + [x])[|p| + 1..] == [];
    assert Delivered([]) == [];
  }

  /** An input that does not commit, after a run without commits, keeps the run without commits and grows the queues by its event. */
  lemma UntouchedStep(s: LoopState, p: seq<Input>, x: Input)
    requires NeverCommitted(s, p) && Untouched(s, p, RunSpec(s, p))
    requires !Commits(RunSpec(s, p), x)
    ensures NeverCommitted(s, p + [x]) && Untouched(s, p + [x], RunSpec(s, p + [x]))
  {
    NeverCommittedStep(s, p, x);
    RunSpecAppend(s, p, x);
    StepQueues(RunSpec(s, p), x);
    QueuesGrow(RunSpec(s, p), RunSpec(s, p + [x]), p, x, s.users, s.members);
  }

  /** A commit that came before the last input is still the last commit after it. */
  lemma SinceCommitStep(s: LoopState, p: seq<Input>, x: Input, k: nat)
    requires SinceCommit(s, p, k, RunSpec(s, p))
    requires !Commits(RunSpec(s, p), x)
    ensures SinceCommit(s, p + [x], k, RunSpec(s, p + [x]))
  {
    LastCommitStep(s, p, x, k);
    QueuesSinceStep(s, p, x, k);
  }

  /**
   * No event is lost and none is sent twice: after any run either no tick
   * committed and the queues hold everything that was queued before plus
   * every event delivered since, or the queues hold exactly the events
   * delivered after the last tick that committed.
   */
  lemma {:induction false} RunQueues(s: LoopState, inputs: seq<Input>)
    ensures QueuesAccounted(s, inputs)
    decreases |inputs|
  {
    if inputs == [] {
      assert Delivered(inputs) == [];
      assert NeverCommitted(s, inputs);
    } else {
      var p := inputs[..|inputs| - 1];
      var x := inputs[|inputs| - 1];
      assert inputs == p + [x];
      RunQueues(s, p);
      QueuesAccountedStep(s, p, x);
    }
  }

  /** One more input keeps the queues accounted for. */
  lemma QueuesAccountedStep(s: LoopState, p: seq<Input>, x: Input)
    requires QueuesAccounted(s, p)
    ensures QueuesAccounted(s, p + [x])
  {
    var prev := RunSpec(s, p);
    if Commits(prev, x) {
      SinceCommitNew(s, p, x);
    } else if NeverCommitted(s, p) && Untouched(s, p, prev) {
      UntouchedStep(s, p, x);
    } else {
      var k :| SinceCommit(s, p, k, prev);
      SinceCommitStep(s, p, x, k);
    }
  }

  /** Across any run the store keeps its invariants and only gains rows. */
  lemma {:induction false} RunKeepsStore(s: LoopState, inputs: seq<Input>)
    requires WellFormed(s.db)
    ensures WellFormed(RunSpec(s, inputs).db)
    ensures AppendOnly(s.db, RunSpec(s, inputs).db)
    decreases |inputs|
  {
    if inputs != [] {
      var p := inputs[..|inputs| - 1];
      var x := inputs[|inputs| - 1];
      var prev := RunSpec(s, p);
      RunKeepsStore(s, p);
      if Commits(prev, x) {
        TxOutcomeCases(prev.db, prev.users, prev.members, x.resolve, x.faults, x.tx);
        BatchKeepsStore(prev.db, prev.users, prev.members, x.resolve, x.faults);
        AppendOnlyTransitive(s.db, prev.db, RunSpec(s, inputs).db);
      }
    }
  }

  /** The accumulator of EvtProcesser: the two queues it owns. */
  class EvtProcessor {
    var queuedUsers: seq<UserGuildPair>
    var queuedMembers: seq<Member>

    /** The loop state this accumulator and the database form together. */
    function StateWith(db: Database): LoopState
      reads this, db
    {
      LoopState(db.State(), queuedUsers, queuedMembers)
    }

    constructor ()
      ensures queuedUsers == [] && queuedMembers == []
    {
      queuedUsers := [];
      queuedMembers := [];
    }

    /** An event reaching the loop through the channel. */
    method Receive(e: Event)
      modifies this
      ensures queuedUsers == old(queuedUsers) + EventUsers(e)
      ensures queuedMembers == old(queuedMembers) + EventMembers(e)
    {
      match e {
        case PresenceUpdate(p) =>
          if p.user.username == "" {
            return;
          }
          queuedUsers := queuedUsers + [UserGuildPair(p.guildId, p.user)];
        case GuildMemberUpdate(m) =>
          queuedMembers := queuedMembers + [m];
        case GuildMemberAdd(m) =>
          queuedMembers := queuedMembers + [m];
        case MemberFetched(m) =>
          queuedMembers := queuedMembers + [m];
        case Unrecognised =>
      }
    }

    /**
     * A timer tick: the queues go to ProcessBatch; both are emptied when the
     * batch committed and stay exactly as they were when it failed.
     */
    method Tick(db: Database, resolve: Resolver, faults: Faults, tx: TxFault) returns (err: Option<BatchError>)
      requires ResolverSound(resolve)
      modifies this, db
      ensures db.deleted == old(db.deleted)
      ensures StateWith(db) == Step(old(StateWith(db)), Timer(resolve, faults, tx))
      ensures err.None? <==> TxOutcome(old(db.State()), old(queuedUsers), old(queuedMembers), resolve, faults, tx).Done?
      ensures err.None? ==> queuedUsers == [] && queuedMembers == []
      ensures err.Some? ==> queuedUsers == old(queuedUsers) && queuedMembers == old(queuedMembers) && db.State() == old(db.State())
    {
      var calls;
      err, calls := ProcessBatch(db, queuedUsers, queuedMembers, resolve, faults, tx);
      if err == None {
        queuedUsers := [];
        queuedMembers := [];
      }
    }

    /**
     * The loop, run over the order in which events and timer ticks reach it.
     */
    method Run(db: Database, inputs: seq<Input>)
      requires forall i :: 0 <= i < |inputs| && inputs[i].Timer? ==> ResolverSound(inputs[i].resolve)
      modifies this, db
      ensures db.deleted == old(db.deleted)
      ensures StateWith(db) == RunSpec(old(StateWith(db)), inputs)
    {
      ghost var s0 := StateWith(db);
      var i := 0;
      while i < |inputs|
        invariant 0 <= i <= |inputs|
        invariant db.deleted == old(db.deleted)
        invariant StateWith(db) == RunSpec(s0, inputs[..i])
      {
        ghost var before := StateWith(db);
        match inputs[i] {
          case Deliver(e) =>
            Receive(e);
          case Timer(resolve, faults, tx) =>
            var _ := Tick(db, resolve, faults, tx);
        }
        assert StateWith(db) == Step(before, inputs[i]);
        RunSpecSnoc(s0, inputs, i);
        i := i + 1;
      }
      assert inputs[..i] == inputs;
    }
  }
}
