/**
 The outbox feed under concurrency: any number of writers and readers.

 Cursors come from a sequence that no transaction owns, so a rollback burns the
 numbers it took; a reader remembers only the last cursor it saw.  What keeps a
 reader from skipping a late commit is an advisory lock that a writer takes
 before its first append and holds to the end of its transaction.
 */
module FeedProtocol {
  import opened Wrappers
  import opened SortedIds
  import opened MediaTables

  const MAX_FEED_READ_LIMIT: nat := 500

  type TxId = nat
  type ReaderId = nat

  /** A row of media_feed_events. */
  datatype Entry = Entry(cursor: int, event: FeedEvent)

  /**
   A transaction that has not ended: its private hash writes, the hash rows it
   has locked, its private feed rows, and the hash whose event it still has to append.
   */
  datatype Tx = Tx(hashes: map<HashKey, HashRecord>, rowLocks: set<HashKey>, entries: seq<Entry>, owes: Option<HashKey>)

  datatype Reader = Reader(position: int, received: seq<Entry>)

  /** `log` lists the committed feed rows in the order in which they became visible. */
  datatype State = State(
    log: seq<Entry>,
    hashes: map<HashKey, HashRecord>,
    nextCursor: int,
    lock: Option<TxId>,
    open: map<TxId, Tx>,
    readers: map<ReaderId, Reader>)

  datatype Step =
    | Begin(tx: TxId)
    | Upsert(tx: TxId, key: HashKey, record: HashRecord)
    | Lock(tx: TxId)
    | Append(tx: TxId, event: FeedEvent)
    | BurnCursor
    | Commit(tx: TxId)
    | Rollback(tx: TxId)
    | Subscribe(reader: ReaderId)
    | Read(reader: ReaderId, limit: int, page: seq<Entry>)

  // ---- the read query ----

  ghost predicate CursorsAscend(entries: seq<Entry>) {
    forall i, j :: 0 <= i < j < |entries| ==> entries[i].cursor < entries[j].cursor
  }

  /** SELECT ... WHERE cursor > after ORDER BY cursor LIMIT limit, over rows in no particular order. */
  ghost predicate IsPage(table: seq<Entry>, after: int, limit: int, page: seq<Entry>) {
    && CursorsAscend(page)
    && |page| <= limit
    && (forall e :: e in page ==> e in table && after < e.cursor)
    && (forall e :: e in table && after < e.cursor && e !in page ==>
          |page| == limit && forall p :: p in page ==> p.cursor < e.cursor)
  }

  // ---- steps ----

  function Idle(): Tx { Tx(map[], {}, [], None) }

  /** What a transaction sees of a hash row: its own write, else the committed one. */
  function Seen(s: State, tx: Tx, key: HashKey): Option<HashRecord> {
    if key in tx.hashes then Some(tx.hashes[key])
    else if key in s.hashes then Some(s.hashes[key])
    else None
  }

  /** Another transaction that has written or locked the row makes this one wait. */
  ghost predicate MustWait(s: State, t: TxId, key: HashKey) {
    exists u :: u in s.open && u != t && key in s.open[u].rowLocks
  }

  function AfterUpsert(s: State, tx: Tx, key: HashKey, record: HashRecord): Tx {
    if Seen(s, tx, key) == Some(record) then tx.(rowLocks := tx.rowLocks + {key})
    else tx.(hashes := tx.hashes[key := record], rowLocks := tx.rowLocks + {key}, owes := Some(key))
  }

  /** A writer that owes an event appends that one; hash events are appended for no other reason. */
  predicate MayAppend(tx: Tx, event: FeedEvent) {
    match tx.owes
    case Some(key) => key in tx.hashes && event == HashUpserted(key, tx.hashes[key].value)
    case None => event.MediaVisibilityChanged?
  }

  function LockAfterEnd(s: State, t: TxId): Option<TxId> {
    if s.lock == Some(t) then None else s.lock
  }

  /**
   One atomic step.  With `locking` false, appends do not ask for the advisory
   lock; the code always runs with it true.
   */
  ghost predicate Takes(locking: bool, s: State, step: Step, s': State) {
    match step
    case Begin(t) =>
      t !in s.open && s' == s.(open := s.open[t := Idle()])
    case Upsert(t, key, record) =>
      && t in s.open && s.open[t].owes.None? && !MustWait(s, t, key)
      && s' == s.(open := s.open[t := AfterUpsert(s, s.open[t], key, record)])
    case Lock(t) =>
      && t in s.open && (s.lock.None? || s.lock == Some(t))
      && s' == s.(lock := Some(t))
    case Append(t, event) =>
      && t in s.open && (locking ==> s.lock == Some(t)) && MayAppend(s.open[t], event)
      && var tx := s.open[t];
         s' == s.(nextCursor := s.nextCursor + 1,
                  open := s.open[t := tx.(entries := tx.entries + [Entry(s.nextCursor, event)], owes := None)])
    case BurnCursor =>
      s' == s.(nextCursor := s.nextCursor + 1)
    case Commit(t) =>
      && t in s.open && s.open[t].owes.None?
      && s' == s.(log := s.log + s.open[t].entries, hashes := s.hashes + s.open[t].hashes,
                  lock := LockAfterEnd(s, t), open := s.open - {t})
    case Rollback(t) =>
      t in s.open && s' == s.(lock := LockAfterEnd(s, t), open := s.open - {t})
    case Subscribe(r) =>
      r !in s.readers && s' == s.(readers := s.readers[r := Reader(0, [])])
    case Read(r, limit, page) =>
      && r in s.readers && 1 <= limit <= MAX_FEED_READ_LIMIT
      && IsPage(s.log, s.readers[r].position, limit, page)
      && s' == s.(readers := s.readers[r := AfterPage(s.readers[r], page)])
  }

  function AfterPage(reader: Reader, page: seq<Entry>): Reader {
    Reader(if page == [] then reader.position else page[|page| - 1].cursor, reader.received + page)
  }

  ghost predicate Next(locking: bool, s: State, s': State) {
    exists step :: Takes(locking, s, step, s')
  }

  function Initial(): State { State([], map[], 1, None, map[], map[]) }

  ghost predicate IsRun(locking: bool, run: seq<State>) {
    && run != [] && run[0] == Initial()
    && forall i :: 0 <= i < |run| - 1 ==> Next(locking, run[i], run[i + 1])
  }

  // ---- what every step keeps ----

  function Events(entries: seq<Entry>): seq<FeedEvent> {
    seq(|entries|, i requires 0 <= i < |entries| => entries[i].event)
  }

  /** Committed cursors ascend in the order in which they became visible. */
  ghost predicate LogInOrder(s: State) {
    && CursorsAscend(s.log)
    && forall i :: 0 <= i < |s.log| ==> 1 <= s.log[i].cursor < s.nextCursor
  }

  /** Only the lock holder has uncommitted events, and each of them is past every committed one. */
  ghost predicate WriterInOrder(s: State, t: TxId)
    requires t in s.open
  {
    var entries := s.open[t].entries;
    entries != [] ==>
      && s.lock == Some(t)
      && CursorsAscend(entries)
      && (forall i :: 0 <= i < |entries| ==> 1 <= entries[i].cursor < s.nextCursor)
      && (forall i, k :: 0 <= i < |entries| && 0 <= k < |s.log| ==> s.log[k].cursor < entries[i].cursor)
  }

  /** A reader holds an initial part of the log, and its position is the end of that part. */
  ghost predicate ReaderInStep(s: State, r: ReaderId)
    requires r in s.readers
  {
    var reader := s.readers[r];
    && |reader.received| <= |s.log|
    && reader.received == s.log[..|reader.received|]
    && reader.position == if reader.received == [] then 0 else s.log[|reader.received| - 1].cursor
  }

  function Stored(hashes: map<HashKey, HashRecord>, key: HashKey): Option<string> {
    if key in hashes then Some(hashes[key].value) else None
  }

  /** A transaction's events retell its own hash writes, but for the one it still owes. */
  ghost predicate WriterAgrees(tx: Tx) {
    && (tx.owes.Some? ==> tx.owes.value in tx.hashes)
    && forall key :: tx.owes != Some(key) ==> Replayed(Events(tx.entries), key) == Stored(tx.hashes, key)
  }

  ghost predicate LogAgrees(s: State) {
    forall key :: Replayed(Events(s.log), key) == Stored(s.hashes, key)
  }

  ghost predicate Inv(s: State) {
    && s.nextCursor >= 1
    && LogInOrder(s)
    && (forall t :: t in s.open ==> WriterInOrder(s, t))
    && (forall r :: r in s.readers ==> ReaderInStep(s, r))
    && (forall t :: t in s.open ==> WriterAgrees(s.open[t]))
    && LogAgrees(s)
  }

  // ---- agreement ----

  lemma EventsConcat(a: seq<Entry>, b: seq<Entry>)
    ensures Events(a + b) == Events(a) + Events(b)
  {}

  lemma {:induction false} ReplayedConcat(a: seq<FeedEvent>, b: seq<FeedEvent>, key: HashKey)
    ensures Replayed(a + b, key) == if Replayed(b, key).Some? then Replayed(b, key) else Replayed(a, key)
  {
    if b == [] {
      assert a + b == a;
    } else {
      var front := b[..|b| - 1];
      ReplayedConcat(a, front, key);
      assert (a + b)[..|a + b| - 1] == a + front;
    }
  }

  lemma CommitKeepsAgreement(s: State, t: TxId)
    requires LogAgrees(s) && t in s.open && s.open[t].owes.None? && WriterAgrees(s.open[t])
    ensures forall key :: Replayed(Events(s.log + s.open[t].entries), key) == Stored(s.hashes + s.open[t].hashes, key)
  {
    var tx := s.open[t];
    EventsConcat(s.log, tx.entries);
    forall key ensures Replayed(Events(s.log + tx.entries), key) == Stored(s.hashes + tx.hashes, key) {
      ReplayedConcat(Events(s.log), Events(tx.entries), key);
      assert Replayed(Events(tx.entries), key) == Stored(tx.hashes, key);
      assert Replayed(Events(s.log), key) == Stored(s.hashes, key);
    }
  }

  lemma AppendKeepsAgreement(tx: Tx, entry: Entry)
    requires WriterAgrees(tx) && MayAppend(tx, entry.event)
    ensures WriterAgrees(tx.(entries := tx.entries + [entry], owes := None))
  {
    EventsConcat(tx.entries, [entry]);
    assert Events([entry]) == [entry.event];
    forall key ensures Replayed(Events(tx.entries + [entry]), key) == Stored(tx.hashes, key) {
      ReplayedAppend(Events(tx.entries), entry.event, key);
    }
  }

  // ---- reading ----

  lemma PositionSplitsLog(log: seq<Entry>, n: nat, position: int)
    requires CursorsAscend(log) && n <= |log|
    requires position == if n == 0 then 0 else log[n - 1].cursor
    requires log != [] ==> 0 < log[0].cursor
    ensures forall k :: 0 <= k < |log| ==> (position < log[k].cursor <==> n <= k)
  {}

  /** A page read at a reader's position is the next stretch of the log: nothing skipped, nothing twice. */
  lemma PageIsNextStretch(s: State, r: ReaderId, limit: int, page: seq<Entry>)
    requires LogInOrder(s) && r in s.readers && ReaderInStep(s, r) && 1 <= limit
    requires IsPage(s.log, s.readers[r].position, limit, page)
    ensures var n := |s.readers[r].received|;
            && n + |page| <= |s.log| && page == s.log[n..n + |page|]
            && (|page| < limit ==> n + |page| == |s.log|)
  {
    var n, position := |s.readers[r].received|, s.readers[r].position;
    PositionSplitsLog(s.log, n, position);
    PageIsSlice(s.log, n, position, limit, page);
  }

  /** A page of a table in cursor order, n of whose rows the reader is past. */
  lemma PageIsSlice(log: seq<Entry>, n: nat, position: int, limit: int, page: seq<Entry>)
    requires CursorsAscend(log) && n <= |log| && 1 <= limit && IsPage(log, position, limit, page)
    requires forall k :: 0 <= k < |log| ==> (position < log[k].cursor <==> n <= k)
    ensures n + |page| <= |log| && page == log[n..n + |page|]
    ensures |page| < limit ==> n + |page| == |log|
  {
    PagePrefix(log, n, position, limit, page, |page|);
    if n + |page| < |log| {
      var e := log[n + |page|];
      assert e in log;
      assert forall k :: 0 <= k < |page| ==> page[k].cursor < e.cursor;
    }
  }

  lemma SliceIsPage(table: seq<Entry>, n: nat, after: int, limit: int, m: nat)
    requires CursorsAscend(table) && n <= m <= |table| && m - n <= limit
    requires forall k :: 0 <= k < |table| ==> (after < table[k].cursor <==> n <= k)
    requires m < |table| ==> m - n == limit
    ensures IsPage(table, after, limit, table[n..m])
  {
    var slice := table[n..m];
    assert forall i :: 0 <= i < |slice| ==> slice[i] == table[n + i];
    forall k | n <= k < m ensures table[k] in slice { assert slice[k - n] == table[k]; }
    forall e | e in table && after < e.cursor && e !in slice
      ensures |slice| == limit && forall p :: p in slice ==> p.cursor < e.cursor
    {
      var k :| 0 <= k < |table| && table[k] == e;
      assert m <= k;
    }
  }

  lemma NextOfPage(log: seq<Entry>, n: nat, position: int, limit: int, page: seq<Entry>, m: nat)
    requires CursorsAscend(log) && n <= |log| && 1 <= limit && IsPage(log, position, limit, page)
    requires forall k :: 0 <= k < |log| ==> (position < log[k].cursor <==> n <= k)
    requires m < |page| && n + m <= |log| && forall j :: 0 <= j < m ==> page[j] == log[n + j]
    ensures n + m < |log| && page[m] == log[n + m]
  {
    var p := page[m];
    assert p in page && p in log;
    var k :| 0 <= k < |log| && log[k] == p;
    assert forall j :: 0 <= j < m ==> page[j].cursor < p.cursor;
    assert forall i :: n <= i < n + m ==> log[i].cursor < log[k].cursor by {
      forall i | n <= i < n + m ensures log[i].cursor < log[k].cursor { assert page[i - n] == log[i]; }
    }
    assert k >= n + m;
    var e := log[n + m];
    assert e in log && position < e.cursor <= p.cursor;
    assert e in page;
    var j :| 0 <= j < |page| && page[j] == e;
    assert j >= m;
    assert j <= m;
  }

  lemma {:induction false} PagePrefix(log: seq<Entry>, n: nat, position: int, limit: int, page: seq<Entry>, m: nat)
    requires CursorsAscend(log) && n <= |log| && 1 <= limit && IsPage(log, position, limit, page)
    requires forall k :: 0 <= k < |log| ==> (position < log[k].cursor <==> n <= k)
    requires m <= |page|
    ensures n + m <= |log| && forall j :: 0 <= j < m ==> page[j] == log[n + j]
  {
    if m > 0 {
      PagePrefix(log, n, position, limit, page, m - 1);
      NextOfPage(log, n, position, limit, page, m - 1);
    }
  }

  datatype FeedReadError = InvalidLimit(limit: int) | UnknownEventKind(kind: string)

  /** How many rows of a table in cursor order a reader at `after` is past. */
  function RowsPast(table: seq<Entry>, after: int): (n: nat)
    ensures n <= |table|
  {
    if table == [] || after < table[0].cursor then 0 else 1 + RowsPast(table[1..], after)
  }

  /** The rows of the read, over the table in the order of its primary key. */
  function FeedPage(table: seq<Entry>, after: int, limit: nat): seq<Entry> {
    var n := RowsPast(table, after);
    table[n..if n + limit <= |table| then n + limit else |table|]
  }

  predicate AllKnown(page: seq<Entry>) {
    forall i :: 0 <= i < |page| ==> !page[i].event.OtherKind?
  }

  /** The first row whose kind the code does not know makes the whole read fail. */
  function Decode(page: seq<Entry>): (r: Result<seq<Entry>, FeedReadError>)
    ensures r.Ok? <==> AllKnown(page)
    ensures r.Ok? ==> r.value == page
    ensures r.Err? ==>
              && r.error.UnknownEventKind?
              && exists i :: 0 <= i < |page| && AllKnown(page[..i]) && page[i].event == OtherKind(r.error.kind)
  {
    if page == [] then Ok(page)
    else
      var front, last := page[..|page| - 1], page[|page| - 1];
      assert page == front + [last];
      match Decode(front)
      case Err(e) =>
        assert forall i :: 0 <= i < |front| ==> page[i] == front[i] && page[..i] == front[..i];
        Err(e)
      case Ok(_) =>
        if last.event.OtherKind? then Err(UnknownEventKind(last.event.kind)) else Ok(page)
  }

  function ListFeedEventsAfter(table: seq<Entry>, after: int, limit: int): Result<seq<Entry>, FeedReadError> {
    if 1 <= limit <= MAX_FEED_READ_LIMIT then Decode(FeedPage(table, after, limit)) else Err(InvalidLimit(limit))
  }

  lemma {:induction false} RowsPastSplits(table: seq<Entry>, after: int)
    requires CursorsAscend(table)
    ensures forall k :: 0 <= k < |table| ==> (after < table[k].cursor <==> RowsPast(table, after) <= k)
  {
    if table != [] && table[0].cursor <= after {
      RowsPastSplits(table[1..], after);
      forall k | 0 < k < |table| ensures after < table[k].cursor <==> RowsPast(table, after) <= k {
        assert table[k] == table[1..][k - 1];
      }
    }
  }

  /**
   The read has one answer: however the rows are stored, it returns a page if and
   only if the limit is in range, the page is the next `limit` rows past the cursor
   in order, and the code knows the kinds of all of them.  It refuses exactly the
   limits out of range.
   */
  lemma TheQueryHasOneAnswer(stored: seq<Entry>, table: seq<Entry>, after: int, limit: int, page: seq<Entry>)
    requires CursorsAscend(table) && forall e :: e in stored <==> e in table
    ensures ListFeedEventsAfter(table, after, limit) == Ok(page) <==>
            1 <= limit <= 500 && IsPage(stored, after, limit, page) && AllKnown(page)
    ensures ListFeedEventsAfter(table, after, limit) == Err(InvalidLimit(limit)) <==>
            limit < 1 || 500 < limit
  {
    SameRowsSamePages(stored, table, after, limit, page);
    if 1 <= limit <= MAX_FEED_READ_LIMIT {
      InOrderAnswer(table, after, limit, page);
    }
    hide IsPage, CursorsAscend, FeedPage, AllKnown;
  }

  lemma InOrderAnswer(table: seq<Entry>, after: int, limit: nat, page: seq<Entry>)
    requires CursorsAscend(table) && 1 <= limit
    ensures FeedPage(table, after, limit) == page <==> IsPage(table, after, limit, page)
  {
    hide IsPage, CursorsAscend;
    var n := RowsPast(table, after);
    RowsPastSplits(table, after);
    SliceIsPage(table, n, after, limit, if n + limit <= |table| then n + limit else |table|);
    if IsPage(table, after, limit, page) {
      PageIsSlice(table, n, after, limit, page);
      PageLength(table, after, limit, page);
    }
  }

  lemma SameRowsSamePages(a: seq<Entry>, b: seq<Entry>, after: int, limit: int, page: seq<Entry>)
    requires forall e :: e in a <==> e in b
    ensures IsPage(a, after, limit, page) <==> IsPage(b, after, limit, page)
  {}

  lemma PageLength(table: seq<Entry>, after: int, limit: int, page: seq<Entry>)
    requires IsPage(table, after, limit, page)
    ensures |page| <= limit
  {}

  // ---- whole runs ----

  lemma CommitKeepsOrder(s: State, t: TxId)
    requires LogInOrder(s) && t in s.open && WriterInOrder(s, t)
    ensures LogInOrder(s.(log := s.log + s.open[t].entries))
  {}

  lemma WriterStays(s: State, s': State, u: TxId)
    requires u in s.open && u in s'.open && WriterInOrder(s, u)
    requires s'.open[u].entries == s.open[u].entries
    requires s.open[u].entries != [] ==> s'.log == s.log && s'.lock == s.lock && s.nextCursor <= s'.nextCursor
    ensures WriterInOrder(s', u)
  {}

  lemma WriterAppends(s: State, t: TxId, event: FeedEvent, s': State)
    requires s.nextCursor >= 1 && LogInOrder(s) && t in s.open && WriterInOrder(s, t)
    requires s.lock == Some(t) && s'.lock == s.lock && s'.log == s.log && s'.nextCursor == s.nextCursor + 1
    requires t in s'.open && s'.open[t].entries == s.open[t].entries + [Entry(s.nextCursor, event)]
    ensures WriterInOrder(s', t)
  {}

  lemma WriterHoldsLock(s: State, t: TxId)
    requires t in s.open && WriterInOrder(s, t)
    ensures s.open[t].entries != [] ==> s.lock == Some(t)
  {}

  /** Two transactions cannot both hold the lock, so at most one has uncommitted events. */
  lemma OneWriterWithEvents(s: State, t: TxId, u: TxId)
    requires t in s.open && u in s.open && u != t
    requires WriterInOrder(s, t) && WriterInOrder(s, u)
    ensures s.open[u].entries != [] ==> s.lock == Some(u) && s.open[t].entries == []
  {}

  lemma StepKeepsWriters(s: State, step: Step, s': State)
    requires Inv(s) && Takes(true, s, step, s')
    ensures forall t :: t in s'.open ==> WriterInOrder(s', t)
  {
    hide IsPage, ReaderInStep, WriterAgrees, LogAgrees, AfterPage, WriterInOrder, LogInOrder, MayAppend;
    forall u | u in s'.open ensures WriterInOrder(s', u) {
      if step.Append? && step.tx == u {
        WriterAppends(s, u, step.event, s');
      } else if step.Begin? && step.tx == u {
        NewWriterInOrder(s', u);
      } else {
        WriterHoldsLock(s, u);
        if (step.Commit? || step.Rollback? || step.Append?) && step.tx != u {
          OneWriterWithEvents(s, step.tx, u);
          assert s.log + [] == s.log;
        }
        WriterStays(s, s', u);
      }
    }
  }

  lemma NewWriterInOrder(s: State, t: TxId)
    requires t in s.open && s.open[t] == Idle()
    ensures WriterInOrder(s, t)
  {}

  lemma StepKeepsLog(s: State, step: Step, s': State)
    requires Inv(s) && Takes(true, s, step, s')
    ensures LogInOrder(s') && s.log <= s'.log
  {
    match step
    case Commit(t) =>
      assert WriterInOrder(s, t);
      CommitKeepsOrder(s, t);
    case _ =>
  }

  lemma UntouchedReaderStays(s: State, s': State, r: ReaderId)
    requires r in s.readers && ReaderInStep(s, r) && s.log <= s'.log
    requires r in s'.readers && s'.readers[r] == s.readers[r]
    ensures ReaderInStep(s', r)
  {
    var n := |s.readers[r].received|;
    assert s'.log[..n] == s.log[..n];
  }

  lemma NewReaderInStep(s: State, r: ReaderId)
    requires r in s.readers && s.readers[r] == Reader(0, [])
    ensures ReaderInStep(s, r)
  {}

  lemma StretchExtends(log: seq<Entry>, n: nat, page: seq<Entry>)
    requires n + |page| <= |log| && page == log[n..n + |page|]
    ensures log[..n] + page == log[..n + |page|]
    ensures page != [] ==> page[|page| - 1] == log[n + |page| - 1]
  {}

  lemma ReadKeepsReader(s: State, r: ReaderId, limit: int, page: seq<Entry>, s': State)
    requires LogInOrder(s) && r in s.readers && ReaderInStep(s, r)
    requires 1 <= limit && IsPage(s.log, s.readers[r].position, limit, page)
    requires s'.log == s.log && r in s'.readers && s'.readers[r] == AfterPage(s.readers[r], page)
    ensures ReaderInStep(s', r)
  {
    hide IsPage, LogInOrder;
    PageIsNextStretch(s, r, limit, page);
    StretchExtends(s.log, |s.readers[r].received|, page);
  }

  lemma StepKeepsReaders(s: State, step: Step, s': State)
    requires Inv(s) && Takes(true, s, step, s')
    ensures forall r :: r in s'.readers ==> ReaderInStep(s', r)
  {
    StepKeepsLog(s, step, s');
    hide IsPage, LogInOrder, WriterInOrder, WriterAgrees, LogAgrees, ReaderInStep, MayAppend, AfterUpsert, AfterPage;
    forall r | r in s'.readers ensures ReaderInStep(s', r) {
      if step.Read? && r == step.reader {
        ReadKeepsReader(s, r, step.limit, step.page, s');
      } else if r in s.readers {
        UntouchedReaderStays(s, s', r);
      } else {
        NewReaderInStep(s', r);
      }
    }
  }

  lemma StepKeepsAgreement(s: State, step: Step, s': State)
    requires Inv(s) && Takes(true, s, step, s')
    ensures LogAgrees(s') && forall t :: t in s'.open ==> WriterAgrees(s'.open[t])
  {
    match step
    case Commit(t) =>
      assert WriterAgrees(s.open[t]);
      CommitKeepsAgreement(s, t);
    case Append(t, event) =>
      assert WriterAgrees(s.open[t]);
      AppendKeepsAgreement(s.open[t], Entry(s.nextCursor, event));
    case Upsert(t, key, record) =>
      assert WriterAgrees(s.open[t]);
    case _ =>
  }

  lemma {:induction false} StepKeepsInv(s: State, step: Step, s': State)
    requires Inv(s) && Takes(true, s, step, s')
    ensures Inv(s')
  {
    StepKeepsLog(s, step, s');
    StepKeepsWriters(s, step, s');
    StepKeepsReaders(s, step, s');
    StepKeepsAgreement(s, step, s');
  }

  lemma {:induction false} RunKeepsInv(run: seq<State>, i: nat)
    requires IsRun(true, run) && i < |run|
    ensures Inv(run[i])
  {
    if i > 0 {
      RunKeepsInv(run, i - 1);
      assert Next(true, run[i - 1], run[i - 1 + 1]);
      var step :| Takes(true, run[i - 1], step, run[i]);
      StepKeepsInv(run[i - 1], step, run[i]);
    }
  }

  /** In every reachable state an uncommitted cursor exceeds every committed one. */
  lemma UncommittedCursorsAreLater(run: seq<State>, i: nat, t: TxId, committed: Entry, pending: Entry)
    requires IsRun(true, run) && i < |run|
    requires t in run[i].open && pending in run[i].open[t].entries && committed in run[i].log
    ensures committed.cursor < pending.cursor < run[i].nextCursor
  {
    RunKeepsInv(run, i);
    assert WriterInOrder(run[i], t);
  }

  /**
   Exactly once, in order, skipping none: whatever the interleaving and the page
   sizes, what a reader has received is an initial part of the log, the log only
   grows, and cursor order is commit order.
   */
  lemma ReadersMissNothing(run: seq<State>, i: nat, r: ReaderId)
    requires IsRun(true, run) && i < |run| && r in run[i].readers
    ensures run[i].readers[r].received <= run[i].log
    ensures CursorsAscend(run[i].log)
  {
    RunKeepsInv(run, i);
    assert ReaderInStep(run[i], r);
  }

  /** A read that comes back short has caught the reader up; any other read moves it on by its limit. */
  lemma ReadsMakeProgress(run: seq<State>, i: nat, r: ReaderId, limit: int, page: seq<Entry>)
    requires IsRun(true, run) && i + 1 < |run|
    requires Takes(true, run[i], Read(r, limit, page), run[i + 1])
    ensures |run[i + 1].readers[r].received| == |run[i].readers[r].received| + |page|
    ensures |page| < limit ==> run[i + 1].readers[r].received == run[i + 1].log
  {
    RunKeepsInv(run, i);
    assert ReaderInStep(run[i], r);
    PageIsNextStretch(run[i], r, limit, page);
  }

  lemma {:induction false} LogOnlyGrows(run: seq<State>, i: nat, j: nat)
    requires IsRun(true, run) && i <= j < |run|
    ensures run[i].log <= run[j].log
  {
    if i < j {
      LogOnlyGrows(run, i, j - 1);
      RunKeepsInv(run, j - 1);
      assert Next(true, run[j - 1], run[j - 1 + 1]);
      var step :| Takes(true, run[j - 1], step, run[j]);
      StepKeepsLog(run[j - 1], step, run[j]);
    }
  }

  /** In every reachable state, replaying the committed feed in cursor order rebuilds the hash index. */
  lemma ReplayRebuildsTheHashIndex(run: seq<State>, i: nat, key: HashKey)
    requires IsRun(true, run) && i < |run|
    ensures CursorsAscend(run[i].log)
    ensures Replayed(Events(run[i].log), key) == Stored(run[i].hashes, key)
  {
    RunKeepsInv(run, i);
  }

  // ---- reads never fail ----

  ghost predicate KnownOnly(s: State) {
    AllKnown(s.log) && forall t :: t in s.open ==> AllKnown(s.open[t].entries)
  }

  lemma StepKeepsKnown(s: State, step: Step, s': State)
    requires KnownOnly(s) && Takes(true, s, step, s')
    ensures KnownOnly(s')
  {
    hide IsPage, MustWait;
  }

  lemma {:induction false} RunKeepsKnown(run: seq<State>, i: nat)
    requires IsRun(true, run) && i < |run|
    ensures KnownOnly(run[i])
  {
    if i > 0 {
      RunKeepsKnown(run, i - 1);
      assert Next(true, run[i - 1], run[i - 1 + 1]);
      var step :| Takes(true, run[i - 1], step, run[i]);
      StepKeepsKnown(run[i - 1], step, run[i]);
    }
  }

  /** Whatever the writers do, a read with a limit in range succeeds. */
  lemma ReadsSucceed(run: seq<State>, i: nat, after: int, limit: int)
    requires IsRun(true, run) && i < |run|
    ensures ListFeedEventsAfter(run[i].log, after, limit).Ok? <==> 1 <= limit <= 500
  {
    RunKeepsKnown(run, i);
  }

  // ---- what the row locks are for ----

  /** A transaction has locked every row it has written, and no two have locked the same row. */
  ghost predicate RowLocksExclude(s: State) {
    && (forall t :: t in s.open ==> s.open[t].hashes.Keys <= s.open[t].rowLocks)
    && (forall t, u :: t in s.open && u in s.open && t != u ==> s.open[t].rowLocks !! s.open[u].rowLocks)
  }

  lemma NobodyElseLocks(s: State, t: TxId, key: HashKey)
    requires !MustWait(s, t, key)
    ensures forall u :: u in s.open && u != t ==> key !in s.open[u].rowLocks
  {
    forall u | u in s.open && u != t
      ensures key !in s.open[u].rowLocks
    {}
  }

  lemma StepKeepsRowLocks(s: State, step: Step, s': State)
    requires RowLocksExclude(s) && Takes(true, s, step, s')
    ensures RowLocksExclude(s')
  {
    hide IsPage, MayAppend, MustWait;
    if step.Upsert? {
      NobodyElseLocks(s, step.tx, step.key);
    }
  }

  lemma {:induction false} RunKeepsRowLocks(run: seq<State>, i: nat)
    requires IsRun(true, run) && i < |run|
    ensures RowLocksExclude(run[i])
  {
    if i > 0 {
      RunKeepsRowLocks(run, i - 1);
      assert Next(true, run[i - 1], run[i - 1 + 1]);
      var step :| Takes(true, run[i - 1], step, run[i]);
      StepKeepsRowLocks(run[i - 1], step, run[i]);
    }
  }

  /** The advisory lock goes with its transaction: nobody waits for one that has ended. */
  lemma {:induction false} LockHolderIsOpen(run: seq<State>, i: nat)
    requires IsRun(true, run) && i < |run|
    ensures run[i].lock.Some? ==> run[i].lock.value in run[i].open
  {
    if i > 0 {
      LockHolderIsOpen(run, i - 1);
      assert Next(true, run[i - 1], run[i - 1 + 1]);
      var step :| Takes(true, run[i - 1], step, run[i]);
      hide IsRun, IsPage, MustWait, MayAppend, AfterUpsert;
    }
  }

  predicate ByAnother(step: Step, t: TxId) {
    match step
    case Begin(u) => u != t
    case Upsert(u, _, _) => u != t
    case Lock(u) => u != t
    case Append(u, _) => u != t
    case Commit(u) => u != t
    case Rollback(u) => u != t
    case _ => true
  }

  /**
   What a transaction sees of a row it has locked, others cannot change: so an
   upsert found Unchanged, or a change whose event is still owed, is still what
   the table says when the transaction commits.
   */
  lemma OthersLeaveLockedRows(run: seq<State>, i: nat, step: Step, t: TxId, key: HashKey)
    requires IsRun(true, run) && i + 1 < |run| && Takes(true, run[i], step, run[i + 1]) && ByAnother(step, t)
    requires t in run[i].open && key in run[i].open[t].rowLocks
    ensures t in run[i + 1].open && run[i + 1].open[t] == run[i].open[t]
    ensures Seen(run[i + 1], run[i + 1].open[t], key) == Seen(run[i], run[i].open[t], key)
  {
    RunKeepsRowLocks(run, i);
    if step.Commit? {
      assert key !in run[i].open[step.tx].hashes.Keys;
    }
  }

  // ---- a transaction alone, and among others ----

  /** Transaction 0 is the only one there is. */
  ghost predicate Alone(s: State) {
    s.open.Keys <= {0} && s.lock in {None, Some(0)} && s.readers == map[]
  }

  /** The same state with other transactions, one of which may hold the lock, and readers; transaction 0 is called t. */
  function Among(s: State, t: TxId, others: map<TxId, Tx>, held: Option<TxId>, readers: map<ReaderId, Reader>): State {
    s.(lock := if s.lock == Some(0) then Some(t) else held,
       open := if 0 in s.open then others[t := s.open[0]] else others,
       readers := readers)
  }

  function CalledBy(step: Step, t: TxId): Step {
    match step
    case Begin(_) => Begin(t)
    case Upsert(_, key, record) => Upsert(t, key, record)
    case Lock(_) => Lock(t)
    case Append(_, event) => Append(t, event)
    case Commit(_) => Commit(t)
    case Rollback(_) => Rollback(t)
    case _ => step
  }

  /**
   What a transaction does alone it also does among any others, provided that none
   of them has the row lock, or the advisory lock, that it asks for.
   */
  lemma StepAloneIsStepAmongOthers(s: State, step: Step, s': State,
                                   t: TxId, others: map<TxId, Tx>, held: Option<TxId>, readers: map<ReaderId, Reader>)
    requires Alone(s) && Alone(s') && Takes(true, s, step, s') && !step.Subscribe? && !step.Read?
    requires t !in others && held != Some(t)
    requires step.Upsert? ==> forall u :: u in others ==> step.key !in others[u].rowLocks
    requires held.Some? ==> s.lock.None? && !step.Lock?
    ensures Takes(true, Among(s, t, others, held, readers), CalledBy(step, t), Among(s', t, others, held, readers))
  {
    hide MayAppend;
    var S, S' := Among(s, t, others, held, readers), Among(s', t, others, held, readers);
    match step
    case Begin(me) =>
      assert me in s'.open.Keys;
      assert S'.open == S.open[t := Idle()];
    case Upsert(_, key, record) =>
      assert AfterUpsert(S, S.open[t], key, record) == AfterUpsert(s, s.open[0], key, record);
    case Commit(_) => assert S.open - {t} == others == S'.open;
    case Rollback(_) => assert S.open - {t} == others == S'.open;
    case _ =>
  }

  // ---- what the lock is for ----

  function Visible(id: VideoId): FeedEvent {
    MediaVisibilityChanged(id, MediaRow(map[], "", None, "", ""))
  }

  lemma RunGoesOn(run: seq<State>, step: Step, s': State)
    requires IsRun(false, run) && run != [] && Takes(false, run[|run| - 1], step, s')
    ensures IsRun(false, run + [s'])
  {
    var longer := run + [s'];
    forall i | 0 <= i < |longer| - 1 ensures Next(false, longer[i], longer[i + 1]) {
      if i < |run| - 1 { assert Next(false, run[i], run[i + 1]); }
    }
  }

  /** Two writers have taken cursors 1 and 2, and neither has committed. */
  function BothPending(): State {
    Initial().(
      nextCursor := 3,
      open := map[1 := Idle().(entries := [Entry(1, Visible(1))]), 2 := Idle().(entries := [Entry(2, Visible(2))])],
      readers := map[0 := Reader(0, [])])
  }

  lemma BothCanBePending() returns (run: seq<State>)
    ensures IsRun(false, run) && run != [] && run[|run| - 1] == BothPending()
  {
    hide IsPage;
    var e1, e2 := Entry(1, Visible(1)), Entry(2, Visible(2));
    var s1 := Initial().(readers := map[0 := Reader(0, [])]);
    var s2 := s1.(open := map[1 := Idle()]);
    var s3 := s2.(open := map[1 := Idle(), 2 := Idle()]);
    assert Idle().entries + [e1] == [e1] && Idle().entries + [e2] == [e2];
    var s4 := s3.(open := map[1 := Idle().(entries := [e1]), 2 := Idle()], nextCursor := 2);
    run := [Initial()];
    RunGoesOn(run, Subscribe(0), s1);
    run := run + [s1];
    RunGoesOn(run, Begin(1), s2);
    run := run + [s2];
    RunGoesOn(run, Begin(2), s3);
    run := run + [s3];
    RunGoesOn(run, Append(1, Visible(1)), s4);
    run := run + [s4];
    RunGoesOn(run, Append(2, Visible(2)), BothPending());
    run := run + [BothPending()];
  }

  /** A reader may be given the later of the two before the earlier one is there. */
  lemma LaterEntryIsAPage(e: Entry)
    requires e.cursor > 0
    ensures IsPage([e], 0, 500, [e])
  {
    SliceIsPage([e], 0, 0, 500, 1);
    assert [e][0..1] == [e];
  }

  /** Without the lock a later cursor can commit first, and a reader then never sees the earlier one. */
  lemma WithoutTheLockAReaderSkips() returns (run: seq<State>, skipped: Entry)
    ensures IsRun(false, run)
    ensures var last := run[|run| - 1];
            && 0 in last.readers
            && skipped in last.log && skipped !in last.readers[0].received
            && skipped.cursor <= last.readers[0].position
  {
    hide IsPage, IsRun;
    var e1, e2 := Entry(1, Visible(1)), Entry(2, Visible(2));
    skipped := e1;
    run := BothCanBePending();
    var s6 := BothPending().(open := map[1 := Idle().(entries := [e1])], log := [e2]);
    var s7 := s6.(readers := map[0 := Reader(2, [e2])]);
    var s8 := s7.(open := map[], log := [e2, e1]);
    LaterEntryIsAPage(e2);
    RunGoesOn(run, Commit(2), s6);
    run := run + [s6];
    RunGoesOn(run, Read(0, 500, [e2]), s7);
    run := run + [s7];
    RunGoesOn(run, Commit(1), s8);
    run := run + [s8];
  }
}
