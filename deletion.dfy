/**
 * HandleMsgDelete and markLoggedMessageAsDeleted: a deleted message sets
 * the deleted flag of its logged row, for a single delete event or for
 * every ID of a bulk delete.
 */
module Deletion {
  import opened Wrappers
  import opened Entities
  import opened Store

  /** The two delete events the handler receives. */
  datatype DeleteEvent = MessageDelete(id: MessageId) | MessageDeleteBulk(ids: seq<MessageId>)

  /** The IDs an event names, in order. */
  function Targets(evt: DeleteEvent): seq<MessageId>
  {
    match evt
    case MessageDelete(id) => [id]
    case MessageDeleteBulk(ids) => ids
  }

  /** The flags after a successful update of message id; an ID with no logged row matches nothing. */
  function MarkOne(flags: map<MessageId, bool>, id: MessageId): map<MessageId, bool>
  {
    if id in flags then flags[id := true] else flags
  }

  /** The flags after marking the IDs from position i on; a failed update (fails(i)) leaves them as they are. */
  function MarkFrom(flags: map<MessageId, bool>, ids: seq<MessageId>, fails: nat -> bool, i: nat): map<MessageId, bool>
    decreases |ids| - i
  {
    if i >= |ids| then flags
    else MarkFrom(if fails(i) then flags else MarkOne(flags, ids[i]), ids, fails, i + 1)
  }

  /** The IDs from position i on whose update succeeded. */
  function Succeeded(ids: seq<MessageId>, fails: nat -> bool, i: nat): set<MessageId>
    decreases |ids| - i
  {
    if i >= |ids| then {} else (if fails(i) then {} else {ids[i]}) + Succeeded(ids, fails, i + 1)
  }

  /** Marking one message sets exactly its flag and leaves every other row as it was. */
  lemma MarkOneExact(flags: map<MessageId, bool>, id: MessageId)
    ensures MarkOne(flags, id).Keys == flags.Keys
    ensures id in flags ==> MarkOne(flags, id)[id]
    ensures forall k :: k in flags && k != id ==> MarkOne(flags, id)[k] == flags[k]
  {
  }

  /** Marking is idempotent. */
  lemma MarkOneIdempotent(flags: map<MessageId, bool>, id: MessageId)
    ensures MarkOne(MarkOne(flags, id), id) == MarkOne(flags, id)
  {
  }

  /**
   * The bulk form visits every ID, whatever failed before: the result sets
   * the flag of every logged message whose update succeeded, keeps every
   * other flag, and never adds or removes a row.
   */
  lemma {:induction false} MarkFromExact(flags: map<MessageId, bool>, ids: seq<MessageId>, fails: nat -> bool, i: nat)
    ensures MarkFrom(flags, ids, fails, i).Keys == flags.Keys
    ensures forall k :: k in flags ==>
              MarkFrom(flags, ids, fails, i)[k] == (flags[k] || k in Succeeded(ids, fails, i))
    decreases |ids| - i
  {
    if i < |ids| {
      var next := if fails(i) then flags else MarkOne(flags, ids[i]);
      MarkFromExact(next, ids, fails, i + 1);
      MarkOneExact(flags, ids[i]);
    }
  }

  /** Handling the same delete event twice gives the state of handling it once. */
  lemma MarkFromIdempotent(flags: map<MessageId, bool>, ids: seq<MessageId>, fails: nat -> bool, i: nat)
    ensures MarkFrom(MarkFrom(flags, ids, fails, i), ids, fails, i) == MarkFrom(flags, ids, fails, i)
  {
    var once := MarkFrom(flags, ids, fails, i);
    MarkFromExact(flags, ids, fails, i);
    MarkFromExact(once, ids, fails, i);
    var twice := MarkFrom(once, ids, fails, i);
    forall k | k in twice ensures twice[k] == once[k] {
    }
    assert twice.Keys == once.Keys;
  }

  /** A flag that is set stays set. */
  lemma MarkFromMonotone(flags: map<MessageId, bool>, ids: seq<MessageId>, fails: nat -> bool, i: nat, k: MessageId)
    requires k in flags && flags[k]
    ensures k in MarkFrom(flags, ids, fails, i) && MarkFrom(flags, ids, fails, i)[k]
  {
    MarkFromExact(flags, ids, fails, i);
  }

  /** A failure on the first ID of a bulk delete does not stop the later ones. */
  lemma BulkContinuesAfterFailure()
    ensures var flags := map[1 := false, 2 := false, 3 := false, 4 := false];
            var fails := (i: nat) => i == 0;
            MarkFrom(flags, [1, 2, 3], fails, 0) == map[1 := false, 2 := true, 3 := true, 4 := false]
  {
    var flags := map[1 := false, 2 := false, 3 := false, 4 := false];
    var fails := (i: nat) => i == 0;
    MarkFromExact(flags, [1, 2, 3], fails, 0);
    assert Succeeded([1, 2, 3], fails, 3) == {};
    assert Succeeded([1, 2, 3], fails, 0) == {2, 3};
  }

  /** Line 309-313: the update of the logged row of one message. */
  method MarkLoggedMessageAsDeleted(db: Database, id: MessageId, fails: bool) returns (err: Option<DbError>)
    modifies db`deleted
    ensures fails ==> err == Some(UpdateFailed) && db.deleted == old(db.deleted)
    ensures !fails ==> err == None && db.deleted == MarkOne(old(db.deleted), id)
  {
    if fails {
      return Some(UpdateFailed);
    }
    if id in db.deleted {
      db.deleted := db.deleted[id := true];
    }
    err := None;
  }

  /**
   * Lines 292-307: every ID of the event is marked in turn; a failed update
   * is only logged, and the handler goes on with the next ID.
   */
  method HandleMsgDelete(db: Database, evt: DeleteEvent, fails: nat -> bool)
    modifies db`deleted
    ensures db.deleted == MarkFrom(old(db.deleted), Targets(evt), fails, 0)
  {
    var ids := Targets(evt);
    ghost var d0 := db.deleted;
    var i := 0;
    while i < |ids|
      invariant 0 <= i <= |ids|
      invariant MarkFrom(db.deleted, ids, fails, i) == MarkFrom(d0, ids, fails, 0)
    {
      var _ := MarkLoggedMessageAsDeleted(db, ids[i], fails(i));
      i := i + 1;
    }
  }
}
