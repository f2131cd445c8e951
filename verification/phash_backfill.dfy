/** The older hash job over video_index and mirror_jobs: it refetches until no row is pending. */
module PHashBackfill {
  import opened Wrappers
  import opened SortedIds

  datatype Status = Pending | PHashComputed | Mirrored | GaveUp | Done

  /** A row of mirror_jobs. */
  datatype Job = Job(status: Status, retryCount: int, errorMessage: Option<string>)

  /** A row of video_index, as far as this job reads it. */
  datatype IndexRow = IndexRow(hetznerKey: Option<string>, phash: Option<string>, kind: Option<string>,
      version: Option<string>)

  type Jobs = map<VideoId, Job>
  type Index = map<VideoId, IndexRow>

  /** The rows the fetch may return. */
  function Eligible(jobs: Jobs, index: Index): set<VideoId> {
    set id | id in jobs && id in index
      && jobs[id].status.Pending? && index[id].hetznerKey.Some? && index[id].phash.None?
  }

  function AfterFailure(job: Job, error: string, maxRetries: int): Job {
    Job(if job.retryCount + 1 >= maxRetries then GaveUp else Pending, job.retryCount + 1, Some(error))
  }

  // ---- the measure ----

  /** Attempts a pending row can still use up: at least the one it is pending for. */
  function Attempts(job: Job, maxRetries: int): nat {
    if maxRetries - job.retryCount >= 1 then maxRetries - job.retryCount else 1
  }

  function Work(ids: set<VideoId>, jobs: Jobs, maxRetries: int): nat
    requires ids <= jobs.Keys
  {
    if ids == {} then 0 else
      var id := Min(ids);
      Attempts(jobs[id], maxRetries) + Work(ids - {id}, jobs, maxRetries)
  }

  lemma {:induction false} WorkWithout(ids: set<VideoId>, jobs: Jobs, maxRetries: int, id: VideoId)
    requires ids <= jobs.Keys && id in ids
    ensures Work(ids, jobs, maxRetries) == Attempts(jobs[id], maxRetries) + Work(ids - {id}, jobs, maxRetries)
  {
    var least := Min(ids);
    if id != least {
      WorkWithout(ids - {least}, jobs, maxRetries, id);
      assert ids - {least} - {id} == ids - {id} - {least};
      LeastOfRest(ids, id);
    }
  }

  lemma LeastOfRest(ids: set<VideoId>, id: VideoId)
    requires id in ids && id != Min(ids)
    ensures ids - {id} != {} && Min(ids - {id}) == Min(ids)
  {
    assert Min(ids) in ids - {id};
  }

  lemma {:induction false} WorkFrame(ids: set<VideoId>, jobs: Jobs, jobs': Jobs, maxRetries: int)
    requires ids <= jobs.Keys && ids <= jobs'.Keys
    requires forall id :: id in ids ==> jobs[id] == jobs'[id]
    ensures Work(ids, jobs, maxRetries) == Work(ids, jobs', maxRetries)
  {
    if ids != {} {
      WorkFrame(ids - {Min(ids)}, jobs, jobs', maxRetries);
    }
  }

  function Pressure(jobs: Jobs, index: Index, maxRetries: int): nat {
    Work(Eligible(jobs, index), jobs, maxRetries)
  }

  /** Every failure of an eligible row uses up one of its attempts. */
  lemma FailureUsesAnAttempt(jobs: Jobs, index: Index, maxRetries: int, id: VideoId, error: string)
    requires id in Eligible(jobs, index)
    ensures var jobs' := jobs[id := AfterFailure(jobs[id], error, maxRetries)];
            Pressure(jobs', index, maxRetries) < Pressure(jobs, index, maxRetries)
  {
    var jobs' := jobs[id := AfterFailure(jobs[id], error, maxRetries)];
    var before, after := Eligible(jobs, index), Eligible(jobs', index);
    WorkWithout(before, jobs, maxRetries, id);
    WorkFrame(before - {id}, jobs, jobs', maxRetries);
    if jobs'[id].status.Pending? {
      assert after == before;
      WorkWithout(after, jobs', maxRetries, id);
    } else {
      assert after == before - {id};
    }
  }

  /** A success takes its row out of the work. */
  lemma SuccessEndsARow(jobs: Jobs, index: Index, maxRetries: int, id: VideoId, row: IndexRow)
    requires id in Eligible(jobs, index) && row.phash.Some?
    ensures var jobs', index' := jobs[id := Job(PHashComputed, jobs[id].retryCount, None)], index[id := row];
            Pressure(jobs', index', maxRetries) < Pressure(jobs, index, maxRetries)
  {
    var jobs', index' := jobs[id := Job(PHashComputed, jobs[id].retryCount, None)], index[id := row];
    WorkWithout(Eligible(jobs, index), jobs, maxRetries, id);
    WorkFrame(Eligible(jobs, index) - {id}, jobs, jobs', maxRetries);
    assert Eligible(jobs', index') == Eligible(jobs, index) - {id};
  }

  // ---- runs ----

  datatype Attempt = Hashed(hash: string, kind: string, version: string) | Broken(error: string)

  /** One attempt whose result was written. */
  datatype Try = Try(id: VideoId, attempt: Attempt)

  /** Both tables. */
  datatype State = State(jobs: Jobs, index: Index)

  function AfterAttempt(s: State, id: VideoId, attempt: Attempt, maxRetries: int): State {
    if id !in s.jobs || id !in s.index then s else
      match attempt
      case Hashed(hash, kind, version) =>
        State(s.jobs[id := Job(PHashComputed, s.jobs[id].retryCount, None)],
              s.index[id := s.index[id].(phash := Some(hash), kind := Some(kind), version := Some(version))])
      case Broken(error) => s.(jobs := s.jobs[id := AfterFailure(s.jobs[id], error, maxRetries)])
  }

  function AfterAll(s: State, trace: seq<Try>, maxRetries: int): State {
    if trace == [] then s else
      var last := trace[|trace| - 1];
      AfterAttempt(AfterAll(s, trace[..|trace| - 1], maxRetries), last.id, last.attempt, maxRetries)
  }

  /** Every attempt was made for a row that was eligible then. */
  ghost predicate Legal(s: State, trace: seq<Try>, maxRetries: int) {
    trace == [] ||
    (var n := |trace| - 1;
     var before := AfterAll(s, trace[..n], maxRetries);
     Legal(s, trace[..n], maxRetries) && trace[n].id in Eligible(before.jobs, before.index))
  }

  /** The columns that make a row work for the job. */
  ghost predicate ToDo(s: State, id: VideoId) {
    && id in s.jobs && id in s.index
    && s.jobs[id].status == Pending && s.index[id].hetznerKey.Some? && s.index[id].phash == None
  }

  lemma OneMoreTry(s: State, trace: seq<Try>, maxRetries: int, last: Try)
    requires Legal(s, trace, maxRetries)
    requires ToDo(AfterAll(s, trace, maxRetries), last.id)
    ensures Legal(s, trace + [last], maxRetries)
    ensures AfterAll(s, trace + [last], maxRetries)
         == AfterAttempt(AfterAll(s, trace, maxRetries), last.id, last.attempt, maxRetries)
  {
    assert (trace + [last])[..|trace|] == trace;
  }

  /** The attempts made for one row, in order. */
  function Tries(trace: seq<Try>, id: VideoId): seq<Attempt> {
    if trace == [] then [] else
      var last := trace[|trace| - 1];
      Tries(trace[..|trace| - 1], id) + if last.id == id then [last.attempt] else []
  }

  /**
   What any run leaves of any row.  A row with attempts was pending with a copy and
   without a hash, and all its attempts but the last one failed, none of them for the
   last allowed time.  After a success it holds the hash of just that attempt; after a
   failure it holds its error and one more failure for each attempt, and has given up
   exactly when that is as many as it may have.
   */
  ghost predicate RowAfter(s: State, now: State, tries: seq<Attempt>, maxRetries: int, id: VideoId) {
    var n := |tries|;
    if n == 0 then
      && (id in now.jobs <==> id in s.jobs) && (id in s.jobs ==> now.jobs[id] == s.jobs[id])
      && (id in now.index <==> id in s.index) && (id in s.index ==> now.index[id] == s.index[id])
    else
      && ToDo(s, id) && id in now.jobs && id in now.index
      && (forall j :: 0 <= j < n - 1 ==> tries[j].Broken?)
      && (n > 1 ==> s.jobs[id].retryCount + n - 1 < maxRetries)
      && match tries[n - 1]
         case Hashed(hash, kind, version) =>
           && now.index[id] == IndexRow(s.index[id].hetznerKey, Some(hash), Some(kind), Some(version))
           && now.jobs[id] == Job(PHashComputed, s.jobs[id].retryCount + n - 1, None)
         case Broken(error) =>
           && now.index[id] == s.index[id]
           && now.jobs[id].retryCount == s.jobs[id].retryCount + n
           && now.jobs[id].errorMessage == Some(error)
           && now.jobs[id].status == if s.jobs[id].retryCount + n >= maxRetries then GaveUp else Pending
  }

  lemma {:induction false} EveryRowAfter(s: State, trace: seq<Try>, maxRetries: int, id: VideoId)
    requires Legal(s, trace, maxRetries)
    ensures RowAfter(s, AfterAll(s, trace, maxRetries), Tries(trace, id), maxRetries, id)
  {
    if trace != [] {
      EveryRowAfter(s, trace[..|trace| - 1], maxRetries, id);
    }
  }

  // ---- the job ----

  /** A row is finished when it has its hash, or has failed as often as it may. */
  predicate Finished(jobs: Jobs, index: Index, maxRetries: int, id: VideoId) {
    && id in jobs && id in index
    && ((jobs[id].status == PHashComputed && index[id].phash.Some?)
        || (jobs[id].status == GaveUp && jobs[id].retryCount >= maxRetries))
  }

  /** Rows outside the initial work are untouched, and rows in it are finished or still to do. */
  ghost predicate Progress(jobs0: Jobs, index0: Index, jobs: Jobs, index: Index, maxRetries: int) {
    && jobs.Keys == jobs0.Keys && index.Keys == index0.Keys
    && (forall id :: id in jobs && id !in Eligible(jobs0, index0) ==> jobs[id] == jobs0[id])
    && (forall id :: id in index && id !in Eligible(jobs0, index0) ==> index[id] == index0[id])
    && (forall id :: id in Eligible(jobs0, index0) ==>
          id in Eligible(jobs, index) || Finished(jobs, index, maxRetries, id))
  }

  lemma RunsProgress(s: State, trace: seq<Try>, maxRetries: int)
    requires Legal(s, trace, maxRetries)
    ensures var now := AfterAll(s, trace, maxRetries); Progress(s.jobs, s.index, now.jobs, now.index, maxRetries)
  {
    hide AfterAll, Tries, Legal;
    var now := AfterAll(s, trace, maxRetries);
    forall id ensures RowAfter(s, now, Tries(trace, id), maxRetries, id) {
      EveryRowAfter(s, trace, maxRetries, id);
    }
    forall id ensures (id in now.jobs.Keys <==> id in s.jobs.Keys) {
      assert RowAfter(s, now, Tries(trace, id), maxRetries, id);
    }
    forall id ensures (id in now.index.Keys <==> id in s.index.Keys) {
      assert RowAfter(s, now, Tries(trace, id), maxRetries, id);
    }
    forall id
      ensures id in now.jobs && id !in Eligible(s.jobs, s.index) ==> now.jobs[id] == s.jobs[id]
      ensures id in now.index && id !in Eligible(s.jobs, s.index) ==> now.index[id] == s.index[id]
      ensures id in Eligible(s.jobs, s.index) ==>
                id in Eligible(now.jobs, now.index) || Finished(now.jobs, now.index, maxRetries, id)
    {
      assert RowAfter(s, now, Tries(trace, id), maxRetries, id);
    }
  }

  lemma EligibleIsToDo(s: State)
    ensures forall id :: id in Eligible(s.jobs, s.index) <==> ToDo(s, id)
  {}

  class JobDb {
    var jobs: Jobs
    var index: Index
    /** Statements that the database refused to run. */
    ghost var faults: nat

    constructor (jobs: Jobs, index: Index)
      ensures this.jobs == jobs && this.index == index
    {
      this.jobs, this.index, faults := jobs, index, 0;
    }

    method Execute() returns (ok: bool)
      modifies this`faults
      ensures faults == old(faults) + if ok then 0 else 1
    {
      ok := *;
      if !ok { faults := faults + 1; }
    }

    ghost function Rows(): State
      reads this`jobs, this`index
    {
      State(jobs, index)
    }

    /** Some of the rows to do, as many as the limit allows, in no particular order. */
    method FetchPendingBatch(limit: int) returns (ok: bool, batch: set<VideoId>)
      modifies this`faults
      ensures faults == old(faults) + if ok || limit < 0 then 0 else 1
      ensures ok ==> limit >= 0 && |batch| <= limit && forall id :: id in batch ==> ToDo(Rows(), id)
      ensures ok && |batch| < limit ==> forall id :: ToDo(Rows(), id) ==> id in batch
    {
      hide Eligible, ToDo;
      batch := {};
      if limit < 0 { return false, batch; }
      ok := Execute();
      if !ok { return; }
      var rest := Eligible(jobs, index);
      while |batch| < limit && rest != {}
        invariant batch + rest == Eligible(jobs, index) && batch !! rest
        invariant |batch| <= limit && faults == old(faults)
        decreases rest
      {
        NonEmpty(rest);
        var id :| id in rest;
        batch, rest := batch + {id}, rest - {id};
      }
      EligibleIsToDo(Rows());
    }

    method UpdatePHashSuccess(id: VideoId, hash: string, kind: string, version: string) returns (ok: bool)
      modifies this
      ensures faults == old(faults) + if ok then 0 else 1
      ensures !ok ==> jobs == old(jobs) && index == old(index)
      ensures ok ==> index == (if id in old(index)
                               then old(index)[id := old(index)[id].(phash := Some(hash), kind := Some(kind),
                                   version := Some(version))]
                               else old(index))
      ensures ok ==> jobs == (if id in old(jobs) && old(jobs)[id].status.Pending?
                              then old(jobs)[id := Job(PHashComputed, old(jobs)[id].retryCount, None)] else old(jobs))
    {
      ok := Execute();
      if !ok { return; }
      if id in index {
        index := index[id := index[id].(phash := Some(hash), kind := Some(kind), version := Some(version))];
      }
      if id in jobs && jobs[id].status.Pending? {
        jobs := jobs[id := jobs[id].(status := PHashComputed, errorMessage := None)];
      }
    }

    /** The new count, or an error when the video has no job. */
    method UpdatePHashFailure(id: VideoId, error: string, maxRetries: int) returns (retries: Option<int>)
      modifies this`jobs, this`faults
      ensures faults == old(faults) + if retries.Some? || id !in old(jobs) then 0 else 1
      ensures retries.Some? ==> id in old(jobs) && retries.value == old(jobs)[id].retryCount + 1
      ensures jobs == if retries.Some? then old(jobs)[id := AfterFailure(old(jobs)[id], error, maxRetries)]
                      else old(jobs)
    {
      if id !in jobs { return None; }
      var ok := Execute();
      if !ok { return None; }
      var count := jobs[id].retryCount + 1;
      var status := if count >= maxRetries then GaveUp else Pending;
      jobs := jobs[id := jobs[id].(retryCount := count, status := status, errorMessage := Some(error))];
      retries := Some(count);
    }
  }

  /** Write one attempt's result: its own hash, kind and version, or its own error. */
  method WriteAttempt(db: JobDb, id: VideoId, attempt: Attempt, maxRetries: int) returns (ok: bool)
    requires ToDo(db.Rows(), id)
    modifies db
    ensures db.faults == old(db.faults) + if ok then 0 else 1
    ensures db.jobs.Keys == old(db.jobs).Keys && db.index.Keys == old(db.index).Keys
    ensures ok && attempt.Hashed? ==>
              && db.index[id].phash == Some(attempt.hash)
              && db.index[id].kind == Some(attempt.kind)
              && db.index[id].version == Some(attempt.version)
              && db.jobs[id] == Job(PHashComputed, old(db.jobs)[id].retryCount, None)
    ensures ok && attempt.Broken? ==>
              && db.index[id] == old(db.index)[id]
              && db.jobs[id].errorMessage == Some(attempt.error)
              && db.jobs[id].retryCount == old(db.jobs)[id].retryCount + 1
              && (db.jobs[id].status == GaveUp <==> maxRetries <= old(db.jobs)[id].retryCount + 1)
    ensures db.Rows() == if ok then AfterAttempt(old(db.Rows()), id, attempt, maxRetries) else old(db.Rows())
    ensures ok ==> Pressure(db.jobs, db.index, maxRetries) < Pressure(old(db.jobs), old(db.index), maxRetries)
    ensures forall other :: other != id ==> (ToDo(db.Rows(), other) <==> ToDo(old(db.Rows()), other))
  {
    match attempt {
      case Hashed(hash, kind, version) =>
        SuccessEndsARow(db.jobs, db.index, maxRetries, id,
                        db.index[id].(phash := Some(hash), kind := Some(kind), version := Some(version)));
        ok := db.UpdatePHashSuccess(id, hash, kind, version);
      case Broken(error) =>
        FailureUsesAnAttempt(db.jobs, db.index, maxRetries, id, error);
        var retries := db.UpdatePHashFailure(id, error, maxRetries);
        ok := retries.Some?;
    }
  }

  /** No row becomes eligible during a run. */
  lemma NoNewWork(jobs0: Jobs, index0: Index, jobs: Jobs, index: Index, maxRetries: int)
    requires Progress(jobs0, index0, jobs, index, maxRetries)
    ensures Eligible(jobs, index) <= Eligible(jobs0, index0)
  {
    forall id | id in Eligible(jobs, index)
      ensures id in Eligible(jobs0, index0)
    {
      assert id in jobs.Keys && id in index.Keys;
    }
  }

  /** What downloading a key and hashing it gives, at the n-th attempt of a run. */
  type Answers = (nat, string) -> Attempt

  /** Every attempt is that of the copy its row names. */
  ghost predicate Answered(answers: Answers, index: Index, trace: seq<Try>) {
    forall k :: 0 <= k < |trace| ==>
      && trace[k].id in index && index[trace[k].id].hetznerKey.Some?
      && trace[k].attempt == answers(k, index[trace[k].id].hetznerKey.value)
  }

  /** A row to do still names the copy it named at the start. */
  lemma SameCopy(s: State, trace: seq<Try>, maxRetries: int, id: VideoId)
    requires Legal(s, trace, maxRetries) && ToDo(AfterAll(s, trace, maxRetries), id)
    ensures var now := AfterAll(s, trace, maxRetries);
            && id in s.index && id in now.index
            && s.index[id].hetznerKey.Some? && now.index[id].hetznerKey == s.index[id].hetznerKey
  {
    EveryRowAfter(s, trace, maxRetries, id);
    hide AfterAll, Tries;
  }

  lemma AllFinished(jobs0: Jobs, index0: Index, jobs: Jobs, index: Index, maxRetries: int)
    requires Progress(jobs0, index0, jobs, index, maxRetries)
    requires forall id :: !ToDo(State(jobs, index), id)
    ensures forall id :: ToDo(State(jobs0, index0), id) ==> Finished(jobs, index, maxRetries, id)
  {
    forall id | ToDo(State(jobs0, index0), id) ensures Finished(jobs, index, maxRetries, id) {
      assert id in Eligible(jobs0, index0);
      assert !ToDo(State(jobs, index), id);
    }
  }

  datatype Ending = NothingPending | CancelledAt | LimitReached | SqlError

  /**
   The job.  It ends because every write uses up work, and what it leaves is that of the
   attempts in `trace`, each of them that of the copy its row names.  When it ends with
   nothing pending, every row that was to do at the start is finished.  It is cancelled
   when the token says so between two batches, and fails only on a statement that did,
   or on a negative page size.
   */
  method Run(db: JobDb, pageSize: int, limit: Option<nat>, maxRetries: int, answers: Answers, cancel: nat -> bool)
    returns (ending: Ending, grandTotal: nat, polls: nat, ghost trace: seq<Try>)
    modifies db
    ensures Legal(old(db.Rows()), trace, maxRetries) && db.Rows() == AfterAll(old(db.Rows()), trace, maxRetries)
    ensures |trace| == grandTotal && Answered(answers, old(db.index), trace)
    ensures Progress(old(db.jobs), old(db.index), db.jobs, db.index, maxRetries)
    ensures ending.NothingPending? && pageSize > 0 ==>
              && (forall id :: !ToDo(db.Rows(), id))
              && (forall id :: ToDo(old(db.Rows()), id) ==> Finished(db.jobs, db.index, maxRetries, id))
    ensures grandTotal + Pressure(db.jobs, db.index, maxRetries) <= Pressure(old(db.jobs), old(db.index), maxRetries)
    ensures pageSize <= 0 ==> grandTotal == 0
    ensures limit.Some? && !ending.LimitReached? ==> grandTotal < limit.value || grandTotal == 0
    ensures ending.LimitReached? ==> limit.Some? && grandTotal == if limit.value == 0 then 1 else limit.value
    ensures polls > 0 && (ending.CancelledAt? <==> cancel(polls - 1)) && forall i :: 0 <= i < polls - 1 ==> !cancel(i)
    ensures ending.SqlError? <==> db.faults > old(db.faults) || (pageSize < 0 && !ending.CancelledAt?)
  {
    hide Pressure, Progress, Finished, Legal, AfterAll, Eligible, AfterAttempt, ToDo, Answered;
    ghost var s := db.Rows();
    grandTotal, polls, trace := 0, 0, [];
    NothingTried(s, maxRetries, answers);
    while true
      invariant Legal(s, trace, maxRetries) && db.Rows() == AfterAll(s, trace, maxRetries)
      invariant |trace| == grandTotal && Answered(answers, s.index, trace)
      invariant grandTotal + Pressure(db.jobs, db.index, maxRetries) <= Pressure(s.jobs, s.index, maxRetries)
      invariant limit.Some? ==> grandTotal < limit.value || grandTotal == 0
      invariant pageSize <= 0 ==> grandTotal == 0
      invariant (forall i :: 0 <= i < polls ==> !cancel(i)) && db.faults == old(db.faults)
      decreases Pressure(db.jobs, db.index, maxRetries)
    {
      RunsProgress(s, trace, maxRetries);
      polls := polls + 1;
      if cancel(polls - 1) { return CancelledAt, grandTotal, polls, trace; }
      var fetched, batch := db.FetchPendingBatch(pageSize);
      if !fetched { return SqlError, grandTotal, polls, trace; }
      if batch == {} {
        assert pageSize > 0 ==> forall id :: !ToDo(db.Rows(), id);
        if pageSize > 0 { AllFinished(s.jobs, s.index, db.jobs, db.index, maxRetries); }
        return NothingPending, grandTotal, polls, trace;
      }
      ghost var pressure := Pressure(db.jobs, db.index, maxRetries);
      var todo := batch;
      while todo != {}
        invariant todo <= batch && forall id :: id in todo ==> ToDo(db.Rows(), id)
        invariant Legal(s, trace, maxRetries) && db.Rows() == AfterAll(s, trace, maxRetries)
        invariant |trace| == grandTotal && Answered(answers, s.index, trace)
        invariant grandTotal + Pressure(db.jobs, db.index, maxRetries) <= Pressure(s.jobs, s.index, maxRetries)
        invariant limit.Some? ==> grandTotal < limit.value || grandTotal == 0
        invariant db.faults == old(db.faults)
        invariant todo != batch ==> Pressure(db.jobs, db.index, maxRetries) < pressure
        invariant todo == batch ==> Pressure(db.jobs, db.index, maxRetries) == pressure
        decreases todo
      {
        NonEmpty(todo);
        var id :| id in todo;
        SameCopy(s, trace, maxRetries, id);
        var attempt := answers(grandTotal, db.index[id].hetznerKey.value);
        var ok := WriteAttempt(db, id, attempt, maxRetries);
        if !ok {
          RunsProgress(s, trace, maxRetries);
          return SqlError, grandTotal, polls, trace;
        }
        OneMoreAnswer(answers, s.index, trace, id);
        OneMoreTry(s, trace, maxRetries, Try(id, attempt));
        trace := trace + [Try(id, attempt)];
        todo := todo - {id};
        grandTotal := grandTotal + 1;
        if limit.Some? && grandTotal >= limit.value {
          RunsProgress(s, trace, maxRetries);
          return LimitReached, grandTotal, polls, trace;
        }
      }
    }
  }

  lemma NothingTried(s: State, maxRetries: int, answers: Answers)
    ensures Legal(s, [], maxRetries) && AfterAll(s, [], maxRetries) == s && Answered(answers, s.index, [])
  {}

  lemma OneMoreAnswer(answers: Answers, index: Index, trace: seq<Try>, id: VideoId)
    requires Answered(answers, index, trace) && id in index && index[id].hetznerKey.Some?
    ensures Answered(answers, index, trace + [Try(id, answers(|trace|, index[id].hetznerKey.value))])
  {}
}
