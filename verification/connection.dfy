/**
 One client connection to the media index.

 `view` is what the open transaction sees; a commit publishes it and a rollback
 forgets it.  The cursor sequence is outside the transaction, as a BIGSERIAL is:
 numbers taken by a rolled-back transaction are never given out again.  Any SQL
 statement may fail, and which ones do is left open (`:= *`).
 */
module Database {
  import opened Wrappers
  import opened SortedIds
  import opened MediaTables
  import P = FeedProtocol

  type SqlError = string

  /** What the feed protocol sees of a connection: whether a transaction is open, its writes, and the advisory lock. */
  datatype Session = Session(inTx: bool, tx: P.Tx, locked: bool)

  const AT_REST := Session(false, P.Idle(), false)

  function CursorsOf(entries: seq<P.Entry>): seq<int> {
    seq(|entries|, i requires 0 <= i < |entries| => entries[i].cursor)
  }

  function LogOf(feed: seq<FeedEvent>, cursors: seq<int>): (log: seq<P.Entry>)
    requires |feed| == |cursors|
    ensures |log| == |feed|
  {
    seq(|feed|, i requires 0 <= i < |feed| => P.Entry(cursors[i], feed[i]))
  }

  lemma LogExtends(feed: seq<FeedEvent>, cursors: seq<int>, entries: seq<P.Entry>)
    requires |feed| == |cursors|
    ensures |feed + P.Events(entries)| == |cursors + CursorsOf(entries)|
    ensures LogOf(feed + P.Events(entries), cursors + CursorsOf(entries)) == LogOf(feed, cursors) + entries
  {}

  lemma EntriesExtend(entries: seq<P.Entry>, e: P.Entry)
    ensures P.Events(entries + [e]) == P.Events(entries) + [e.event]
    ensures CursorsOf(entries + [e]) == CursorsOf(entries) + [e.cursor]
  {}

  /** The session once its transaction has appended an event under a cursor. */
  ghost function Appended(session: Session, cursor: int, event: FeedEvent): Session {
    session.(tx := session.tx.(entries := session.tx.entries + [P.Entry(cursor, event)], owes := None), locked := true)
  }

  lemma AppendIsLockThenAppend(t: Tables, cursors: seq<int>, next: int, session: Session, event: FeedEvent)
    requires |t.feed| == |cursors| && session.inTx && P.MayAppend(session.tx, event)
    ensures var locked := StateOf(t, cursors, next, session.(locked := true));
            && P.Takes(true, StateOf(t, cursors, next, session), P.Lock(0), locked)
            && P.Takes(true, locked, P.Append(0, event), StateOf(t, cursors, next + 1, Appended(session, next, event)))
  {
    hide LogOf;
    var locked := StateOf(t, cursors, next, session.(locked := true));
    assert locked.open[0 := Appended(session, next, event).tx] == map[0 := Appended(session, next, event).tx];
  }

  /** The session once its transaction has upserted a hash. */
  ghost function Upserted(t: Tables, session: Session, key: HashKey, record: HashRecord): Session {
    session.(tx := P.AfterUpsert(StateOf(t.(feed := []), [], 0, session), session.tx, key, record))
  }

  lemma UpsertIsAStep(t: Tables, cursors: seq<int>, next: int, session: Session, key: HashKey, record: HashRecord)
    requires |t.feed| == |cursors| && session.inTx && session.tx.owes.None?
    ensures P.Takes(true, StateOf(t, cursors, next, session), P.Upsert(0, key, record),
                    StateOf(t, cursors, next, Upserted(t, session, key, record)))
    ensures Upserted(t, session, key, record).inTx
  {
    hide LogOf;
    var s, tx := StateOf(t, cursors, next, session), Upserted(t, session, key, record).tx;
    assert s.open[0 := tx] == map[0 := tx];
  }

  /** What the transaction sees of the hashes afterwards, and what it owes. */
  lemma UpsertedView(t: Tables, session: Session, view: map<HashKey, HashRecord>, key: HashKey, record: HashRecord)
    requires view == t.hashes + session.tx.hashes && session.tx.owes.None?
    ensures var tx := Upserted(t, session, key, record).tx;
            && t.hashes + tx.hashes == view[key := record] && tx.entries == session.tx.entries
            && if key in view && view[key] == record then tx.owes.None?
               else tx.owes == Some(key) && key in tx.hashes && tx.hashes[key] == record
  {}

  /** The protocol state with this connection's transaction, number 0, as the only one. */
  function StateOf(t: Tables, cursors: seq<int>, nextCursor: int, session: Session): (s: P.State)
    requires |t.feed| == |cursors|
    ensures P.Alone(s)
  {
    P.State(LogOf(t.feed, cursors), t.hashes, nextCursor,
            if session.inTx && session.locked then Some(0) else None,
            if session.inTx then map[0 := session.tx] else map[], map[])
  }

  class Connection {
    var committed: Tables
    var committedCursors: seq<int>
    var view: Tables
    var viewCursors: seq<int>
    var nextCursor: int
    ghost var session: Session
    /** How many statements have failed. */
    ghost var faults: nat
    /** The media_job_runs row of the job that uses this connection. */
    var jobStatus: JobStatus

    /** Every event has a cursor, cursors ascend, and none is still to be given out. */
    ghost predicate Numbered(t: Tables, cursors: seq<int>)
      reads this`nextCursor
    {
      && |cursors| == |t.feed|
      && Ascending(cursors)
      && forall i :: 0 <= i < |cursors| ==> cursors[i] < nextCursor
    }

    ghost predicate Valid()
      reads this`committed, this`committedCursors, this`view, this`viewCursors, this`nextCursor, this`session
    {
      && Numbered(committed, committedCursors) && Numbered(view, viewCursors)
      && view.hashes == committed.hashes + session.tx.hashes
      && view.feed == committed.feed + P.Events(session.tx.entries)
      && viewCursors == committedCursors + CursorsOf(session.tx.entries)
      && (!session.inTx ==> session == AT_REST)
    }

    /** A transaction is open, and every hash it has changed is announced. */
    ghost predicate Ready()
      reads this`session
    {
      session.inTx && session.tx.owes.None?
    }

    /** The transaction has still to announce this record. */
    ghost predicate Owes(key: HashKey, record: HashRecord)
      reads this`session
    {
      session.tx.owes == Some(key) && key in session.tx.hashes && session.tx.hashes[key] == record
    }

    ghost function Protocol(): P.State
      requires Valid()
      reads this`committed, this`committedCursors, this`view, this`viewCursors, this`nextCursor, this`session
    {
      StateOf(committed, committedCursors, nextCursor, session)
    }

    constructor (initial: Tables, cursors: seq<int>, next: int)
      requires |cursors| == |initial.feed| && Ascending(cursors)
      requires forall i :: 0 <= i < |cursors| ==> cursors[i] < next
      ensures Valid() && session == AT_REST
      ensures committed == initial && committedCursors == cursors && nextCursor == next
    {
      committed, committedCursors := initial, cursors;
      view, viewCursors := initial, cursors;
      nextCursor, jobStatus, session := next, Running, AT_REST;
    }

    /** The fate of one statement: None when it succeeds. */
    method Execute() returns (error: Option<SqlError>)
      modifies this`faults
      ensures faults == old(faults) + if error.None? then 0 else 1
    {
      error := *;
      faults := faults + if error.None? then 0 else 1;
    }

    /** A transaction that was abandoned is rolled back first. */
    method Begin() returns (error: Option<SqlError>)
      requires Valid()
      modifies this`view, this`viewCursors, this`session, this`faults
      ensures faults == old(faults) + if error.None? then 0 else 1
      ensures Valid()
      ensures error.None? ==> view == committed && viewCursors == committedCursors && Ready()
      ensures error.Some? ==> view == old(view) && viewCursors == old(viewCursors) && session == old(session)
      ensures error.None? ==>
                P.Takes(true, StateOf(committed, committedCursors, nextCursor, AT_REST), P.Begin(0), Protocol())
    {
      error := Execute();
      if error.None? {
        view, viewCursors, session := committed, committedCursors, Session(true, P.Idle(), false);
      }
    }

    /** A failed commit publishes nothing. */
    method Commit() returns (error: Option<SqlError>)
      requires Valid() && Ready()
      modifies this`committed, this`committedCursors, this`session, this`faults
      ensures faults == old(faults) + if error.None? then 0 else 1
      ensures Valid()
      ensures committed == if error.None? then view else old(committed)
      ensures committedCursors == if error.None? then viewCursors else old(committedCursors)
      ensures error.None? ==> P.Takes(true, old(Protocol()), P.Commit(0), Protocol())
      ensures error.Some? ==> session == old(session)
    {
      error := Execute();
      if error.None? {
        LogExtends(committed.feed, committedCursors, session.tx.entries);
        committed, committedCursors, session := view, viewCursors, AT_REST;
      }
    }

    method Rollback()
      requires Valid() && session.inTx
      modifies this`view, this`viewCursors, this`session
      ensures Valid() && view == committed && viewCursors == committedCursors
      ensures P.Takes(true, old(Protocol()), P.Rollback(0), Protocol())
    {
      view, viewCursors, session := committed, committedCursors, AT_REST;
    }

    /** INSERT ... ON CONFLICT DO NOTHING, the source row, then the locked check and the COALESCE update. */
    method UpsertServableVideo(id: VideoId, input: MediaRow) returns (r: Result<ServableUpsert, SqlError>)
      requires Valid()
      modifies this`view, this`faults
      ensures faults == old(faults) + if r.Ok? then 0 else 1
      ensures Valid()
      ensures r.Ok? ==> view == UpsertMedia(old(view), id, input)
                        && r.value.media == MediaOutcome(old(view), id, input)
                        && r.value.sourceInserted == SourceIsNew(old(view), id, input)
      ensures view.feed == old(view.feed) && view.hashes == old(view.hashes)
    {
      var error := Execute();
      if error.Some? { return Err(error.value); }
      var inserted := id !in view.master;
      if inserted {
        view := view.(master := view.master[id := input]);
      }

      var sourceInserted := false;
      if input.sourceRef.Some? {
        error := Execute();
        if error.Some? { return Err(error.value); }
        var key := SourceKey(id, input.sourceKind, input.sourceRef.value);
        if key !in view.sources {
          view := view.(sources := view.sources[key := None]);
          sourceInserted := true;
        }
      }
      if inserted { return Ok(ServableUpsert(Inserted, sourceInserted)); }

      error := Execute();
      if error.Some? { return Err(error.value); }
      var existing := view.master[id];
      MatchesIffUpdateIsIdle(existing, input);
      if MaterialMatches(existing, input) {
        assert view.master == view.master[id := existing];
        return Ok(ServableUpsert(Unchanged, sourceInserted));
      }

      error := Execute();
      if error.Some? { return Err(error.value); }
      view := view.(master := view.master[id := Coalesce(existing, input)]);
      r := Ok(ServableUpsert(Changed, sourceInserted));
    }

    /** UPDATE servable_video_sources SET raw_payload: no row, no change. */
    method SetSourcePayload(key: SourceKey, payload: LegacyRow) returns (error: Option<SqlError>)
      requires Valid()
      modifies this`view, this`faults
      ensures faults == old(faults) + if error.None? then 0 else 1
      ensures Valid()
      ensures view == if error.None? && key in old(view).sources
                      then old(view).(sources := old(view).sources[key := Some(payload)]) else old(view)
    {
      error := Execute();
      if error.None? && key in view.sources {
        view := view.(sources := view.sources[key := Some(payload)]);
      }
    }

    /** A hash that changes is owed an event before anything else is written or committed. */
    method UpsertHashRecord(key: HashKey, record: HashRecord) returns (r: Result<UpsertOutcome, SqlError>)
      requires Valid() && Ready()
      modifies this`view, this`session, this`faults
      ensures faults == old(faults) + if r.Ok? then 0 else 1
      ensures Valid() && session.inTx
      ensures r.Ok? ==> view == UpsertHash(old(view), key, record) && r.value == HashOutcome(old(view), key, record)
      ensures r.Ok? ==> if r.value == Unchanged then Ready()
                        else Owes(key, record)
      ensures r.Ok? ==> P.Takes(true, old(Protocol()), P.Upsert(0, key, record), Protocol())
      ensures r.Err? ==> view == old(view) && session == old(session)
      ensures view.feed == old(view.feed)
    {
      hide LogOf, P.Takes, P.Events, CursorsOf, Upserted, StateOf;
      ghost var upserted := Upserted(committed, session, key, record);
      UpsertIsAStep(committed, committedCursors, nextCursor, session, key, record);
      UpsertedView(committed, session, view.hashes, key, record);
      var error := Execute();
      if error.Some? { return Err(error.value); }
      if key !in view.hashes {
        view := view.(hashes := view.hashes[key := record]);
        session := upserted;
        return Ok(Inserted);
      }
      error := Execute();
      if error.Some? { return Err(error.value); }
      if view.hashes[key] == record {
        assert view.hashes == view.hashes[key := record];
        session := upserted;
        return Ok(Unchanged);
      }
      error := Execute();
      if error.Some? { return Err(error.value); }
      view := view.(hashes := view.hashes[key := record]);
      session := upserted;
      r := Ok(Changed);
    }

    /** Lock, permit the insert, then insert; a failing insert may still burn a cursor. */
    method AppendFeedEvent(event: FeedEvent) returns (r: Result<int, SqlError>)
      requires Valid() && session.inTx && P.MayAppend(session.tx, event)
      modifies this`view, this`viewCursors, this`nextCursor, this`session, this`faults
      ensures faults == old(faults) + if r.Ok? then 0 else 1
      ensures Valid() && session.inTx && old(nextCursor) <= nextCursor
      ensures r.Ok? ==>
                && view == AppendEvent(old(view), event)
                && viewCursors == old(viewCursors) + [r.value]
                && r.value == old(nextCursor) < nextCursor
                && Ready()
      ensures r.Ok? ==>
                var locked := StateOf(committed, committedCursors, old(nextCursor), old(session).(locked := true));
                && P.Takes(true, old(Protocol()), P.Lock(0), locked)
                && P.Takes(true, locked, P.Append(0, event), Protocol())
      ensures r.Err? ==> view == old(view) && viewCursors == old(viewCursors) && nextCursor <= old(nextCursor) + 1
      ensures r.Err? ==> session == old(session) || session == old(session).(locked := true)
    {
      hide LogOf, P.Takes, P.MayAppend, P.Events, CursorsOf;
      AppendIsLockThenAppend(committed, committedCursors, nextCursor, session, event);
      EntriesExtend(session.tx.entries, P.Entry(nextCursor, event));
      var error := Execute();
      if error.Some? { return Err(error.value); }
      session := session.(locked := true);
      error := Execute();
      if error.Some? { return Err(error.value); }
      var cursor := nextCursor;
      nextCursor := nextCursor + 1;
      error := Execute();
      if error.Some? { return Err(error.value); }
      view := view.(feed := view.feed + [event]);
      viewCursors := viewCursors + [cursor];
      session := Appended(session, cursor, event);
      r := Ok(cursor);
    }

    method WriteFailure(key: FailureKey, failure: Failure) returns (error: Option<SqlError>)
      requires Valid()
      modifies this`view, this`faults
      ensures faults == old(faults) + if error.None? then 0 else 1
      ensures Valid()
      ensures view == if error.None? then old(view).(failures := old(view).failures[key := failure]) else old(view)
    {
      error := Execute();
      if error.None? {
        view := view.(failures := view.failures[key := failure]);
      }
    }

    /** DELETE FROM media_job_failures WHERE job_kind = $1 AND video_id = $2. */
    method DeleteFailures(jobKind: string, item: VideoId) returns (error: Option<SqlError>)
      requires Valid()
      modifies this`view, this`faults
      ensures faults == old(faults) + if error.None? then 0 else 1
      ensures Valid()
      ensures view == if error.None? then WithoutFailures(old(view), jobKind, item) else old(view)
      ensures error.None? ==> forall key ::
                && (key in view.failures <==>
                      key in old(view).failures && (key.jobKind != jobKind || key.item != item))
                && (key in view.failures ==> view.failures[key] == old(view).failures[key])
    {
      error := Execute();
      if error.None? {
        view := view.(failures := map key |
          key in view.failures && !(key.jobKind == jobKind && key.item == item) :: view.failures[key]);
      }
    }

    method SetJobStatus(status: JobStatus) returns (error: Option<SqlError>)
      requires Valid()
      modifies this`jobStatus, this`faults
      ensures faults == old(faults) + if error.None? then 0 else 1
      ensures Valid() && jobStatus == if error.None? then status else old(jobStatus)
    {
      error := Execute();
      if error.None? {
        jobStatus := status;
      }
    }
  }
}
