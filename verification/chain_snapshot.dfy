/** The walk over an arbitrary page source, and what it may do to the tables when it ends. */
module ChainSnapshot {
  import opened Wrappers
  import opened ChainTables

  const PAGE: nat := 100
  const MAX_ITERS: nat := 100_000

  datatype FetchResult = FetchResult(posts: seq<Post>, lastPostId: Option<PostId>)

  /** Any source at all: its n-th answer to any cursor, or an error. */
  type Source = (nat, Option<PostId>) -> Option<FetchResult>

  /** The cursor to go on from: an empty id counts as none. */
  function NextCursor(res: FetchResult): Option<PostId> {
    if res.lastPostId == Some("") then None else res.lastPostId
  }

  /** Stop on an empty page, no cursor, the same cursor again, or a short page. */
  function WalkStep(prev: Option<PostId>, res: FetchResult, page: nat): (bool, Option<PostId>) {
    var next := NextCursor(res);
    (res.posts == [] || next.None? || next == prev || |res.posts| < page, next)
  }

  // ---- walks ----

  function CursorAfter(fetched: seq<FetchResult>): Option<PostId> {
    if fetched == [] then None else NextCursor(fetched[|fetched| - 1])
  }

  predicate StopsAt(fetched: seq<FetchResult>) {
    fetched != [] && WalkStep(CursorAfter(fetched[..|fetched| - 1]), fetched[|fetched| - 1], PAGE).0
  }

  /**
   A walk stops after a page of fewer than a hundred posts, after one without a next
   cursor, and after one with the same next cursor as the page before.
   */
  lemma StopsIff(fetched: seq<FetchResult>)
    requires fetched != []
    ensures var n := |fetched|;
            var next := fetched[n - 1].lastPostId;
            && (StopsAt(fetched) <==>
                  || |fetched[n - 1].posts| < 100
                  || next == None || next == Some("")
                  || (n > 1 && next == fetched[n - 2].lastPostId))
            && CursorAfter(fetched) == if next == Some("") then None else next
  {}

  /** Each page is the source's answer to the cursor before it, and only the last may stop the walk. */
  ghost predicate IsWalk(source: Source, fetched: seq<FetchResult>) {
    forall k :: 0 <= k < |fetched| ==>
      && source(k, CursorAfter(fetched[..k])) == Some(fetched[k])
      && !StopsAt(fetched[..k])
  }

  function AllPosts(fetched: seq<FetchResult>): seq<Post> {
    if fetched == [] then [] else AllPosts(fetched[..|fetched| - 1]) + fetched[|fetched| - 1].posts
  }

  datatype SnapshotSummary = SnapshotSummary(upserted: nat, pages: nat, skipped: nat, completed: bool)

  /** The walk failed before anything was marked, or finishing it failed. */
  datatype SnapshotError = WalkFailed | FinishFailed

  class ChainDb {
    var posts: Posts
    var users: map<string, Rollup>
    /** Statements that the database refused to run. */
    ghost var faults: nat

    constructor (posts: Posts, users: map<string, Rollup>)
      ensures this.posts == posts && this.users == users
    {
      this.posts, this.users, faults := posts, users, 0;
    }

    method Execute() returns (ok: bool)
      modifies this`faults
      ensures faults == old(faults) + if ok then 0 else 1
    {
      ok := *;
      if !ok { faults := faults + 1; }
    }

    method UpsertChainPost(p: Post, run: RunId) returns (ok: bool)
      modifies this`posts, this`faults
      ensures faults == old(faults) + if ok then 0 else 1
      ensures posts == if ok then old(posts)[p.id := Staged(p, run)] else old(posts)
      ensures ok ==> p.id in posts && Shows(posts[p.id], p, run)
    {
      ok := Execute();
      if ok {
        posts := posts[p.id := PostRow(p.videoUid, p.creator, p.createdAt, p.status, Some(run), false)];
      }
    }

    method MarkStalePosts(run: RunId) returns (ok: bool)
      modifies this`posts, this`faults
      ensures faults == old(faults) + if ok then 0 else 1
      ensures posts == if ok then MarkStale(old(posts), run) else old(posts)
      ensures ok ==> posts.Keys == old(posts).Keys && forall id :: id in posts ==>
                posts[id] == old(posts)[id].(stale := old(posts)[id].stale || old(posts)[id].run != Some(run))
    {
      ok := Execute();
      if ok {
        posts := map id | id in posts ::
          if !posts[id].stale && posts[id].run != Some(run) then posts[id].(stale := true) else posts[id];
      }
    }

    /** A DELETE of the creators with no live post, then an upsert of every group. */
    method RebuildYralUsers() returns (ok: bool)
      modifies this`users, this`faults
      ensures faults == old(faults) + if ok then 0 else 1
      ensures ok ==> users == GroupBy(posts)
    {
      ok := Execute();
      if !ok { return; }
      var live := Creators(posts);
      users := map c | c in users && c in live :: users[c];
      ok := Execute();
      if !ok { return; }
      users := users + GroupBy(posts);
      assert users.Keys == GroupBy(posts).Keys;
    }
  }

  /** One page: every post with a video is staged, in order. */
  method StagePage(db: ChainDb, page: seq<Post>, run: RunId, ghost rows: Posts, ghost before: seq<Post>)
    returns (ok: bool, upserted: nat, skipped: nat, ghost handled: seq<Post>)
    requires db.posts == StageAll(rows, before, run)
    modifies db`posts, db`faults
    ensures db.faults == old(db.faults) + if ok then 0 else 1
    ensures db.posts == StageAll(rows, handled, run)
    ensures ok ==> handled == before + page
    ensures ok ==> upserted == WithVideo(handled) - WithVideo(before) && upserted + skipped == |page|
  {
    hide StageAll, WithVideo;
    ok, upserted, skipped, handled := true, 0, 0, before;
    var i := 0;
    while i < |page|
      invariant 0 <= i <= |page|
      invariant handled == before + page[..i] && db.faults == old(db.faults)
      invariant db.posts == StageAll(rows, handled, run)
      invariant upserted == WithVideo(handled) - WithVideo(before) && upserted + skipped == i
    {
      StageExtends(rows, handled, page[i], run);
      if page[i].videoUid == "" {
        skipped := skipped + 1;
      } else {
        ok := db.UpsertChainPost(page[i], run);
        if !ok { return; }
        upserted := upserted + 1;
      }
      handled := handled + [page[i]];
      assert before + page[..i] + [page[i]] == before + page[..i + 1];
      i := i + 1;
    }
    assert page[..i] == page;
  }

  lemma WalkExtends(source: Source, fetched: seq<FetchResult>, res: FetchResult)
    requires IsWalk(source, fetched) && !StopsAt(fetched)
    requires source(|fetched|, CursorAfter(fetched)) == Some(res)
    ensures IsWalk(source, fetched + [res])
    ensures AllPosts(fetched + [res]) == AllPosts(fetched) + res.posts
    ensures CursorAfter(fetched + [res]) == NextCursor(res)
    ensures StopsAt(fetched + [res]) <==> WalkStep(CursorAfter(fetched), res, PAGE).0
  {
    var longer := fetched + [res];
    assert longer[..|fetched|] == fetched;
    forall k | 0 <= k < |longer|
      ensures source(k, CursorAfter(longer[..k])) == Some(longer[k]) && !StopsAt(longer[..k])
    {
      if k < |fetched| { assert longer[..k] == fetched[..k]; }
    }
  }

  lemma NoPageYet(source: Source, rows: Posts, run: RunId)
    ensures IsWalk(source, []) && !StopsAt([]) && CursorAfter([]) == None && AllPosts([]) == []
    ensures StageAll(rows, [], run) == rows && WithVideo([]) == 0
  {}

  /** Why a walk that did not fail ended before the source was exhausted. */
  datatype Ending = Exhausted | CancelledAt | LimitReached | Backstop

  /**
   How each walk ends.  The cancel token is asked before every page; the limit is
   looked at after a page, and before the end of the source.
   */
  ghost predicate EndsAs(ending: Ending, source: Source, limit: Option<nat>, cancel: nat -> bool,
                         fetched: seq<FetchResult>) {
    var enough := fetched != [] && limit.Some? && limit.value <= WithVideo(AllPosts(fetched));
    && (forall k :: 0 <= k < |fetched| ==> !cancel(k))
    && match ending
       case LimitReached => enough
       case Exhausted => StopsAt(fetched) && !enough
       case CancelledAt => !StopsAt(fetched) && !enough && cancel(|fetched|)
       case Backstop => !StopsAt(fetched) && !enough && !cancel(|fetched|) && |fetched| == 100_000
  }

  /**
   The walk.  It fails only on a statement that did, or where the source has no answer
   to its cursor.
   */
  method Walk(db: ChainDb, run: RunId, source: Source, limit: Option<nat>, cancel: nat -> bool)
    returns (r: Result<SnapshotSummary, SnapshotError>, ghost fetched: seq<FetchResult>, ghost handled: seq<Post>,
        ghost ending: Ending)
    modifies db`posts, db`faults
    ensures IsWalk(source, fetched) && |fetched| <= 100_000
    ensures db.posts == StageAll(old(db.posts), handled, run)
    ensures r.Err? ==> r.error == WalkFailed
    ensures r.Ok? ==> db.faults == old(db.faults)
    ensures r.Err? && db.faults == old(db.faults) ==>
              source(|fetched|, CursorAfter(fetched)) == None && !StopsAt(fetched) && !cancel(|fetched|)
    ensures r.Ok? ==>
              && handled == AllPosts(fetched) && EndsAs(ending, source, limit, cancel, fetched)
              && r.value.pages == |fetched| && r.value.completed == ending.Exhausted?
              && r.value.upserted == WithVideo(handled) && r.value.upserted + r.value.skipped == |handled|
  {
    hide IsWalk, StageAll, WithVideo, AllPosts, StopsAt, CursorAfter;
    ghost var rows := db.posts;
    NoPageYet(source, rows, run);
    var cursor: Option<PostId> := None;
    var pages: nat, upserted: nat, skipped: nat := 0, 0, 0;
    fetched, handled, ending := [], [], Exhausted;
    while true
      invariant IsWalk(source, fetched) && |fetched| == pages <= MAX_ITERS && !StopsAt(fetched)
      invariant cursor == CursorAfter(fetched)
      invariant handled == AllPosts(fetched)
      invariant db.posts == StageAll(rows, handled, run)
      invariant upserted == WithVideo(handled) && upserted + skipped == |handled|
      invariant limit.Some? && fetched != [] ==> upserted < limit.value
      invariant (forall k :: 0 <= k < pages ==> !cancel(k)) && db.faults == old(db.faults)
      decreases MAX_ITERS - pages
    {
      if cancel(pages) {
        ending := CancelledAt;
        return Ok(SnapshotSummary(upserted, pages, skipped, false)), fetched, handled, ending;
      }
      if pages >= MAX_ITERS {
        ending := Backstop;
        return Ok(SnapshotSummary(upserted, pages, skipped, false)), fetched, handled, ending;
      }
      var answer := source(pages, cursor);
      if answer.None? { return Err(WalkFailed), fetched, handled, ending; }
      var res := answer.value;
      WalkExtends(source, fetched, res);
      fetched := fetched + [res];
      pages := pages + 1;
      var ok, more, fewer;
      ok, more, fewer, handled := StagePage(db, res.posts, run, rows, handled);
      if !ok { return Err(WalkFailed), fetched, handled, ending; }
      upserted, skipped := upserted + more, skipped + fewer;
      if limit.Some? && upserted >= limit.value {
        ending := LimitReached;
        return Ok(SnapshotSummary(upserted, pages, skipped, false)), fetched, handled, ending;
      }
      var (stop, next) := WalkStep(cursor, res, PAGE);
      if stop {
        return Ok(SnapshotSummary(upserted, pages, skipped, true)), fetched, handled, Exhausted;
      }
      cursor := next;
    }
  }

  /**
   The snapshot.  Only a walk that exhausted its source marks rows stale and rebuilds
   the rollup; under a new run id, over posts whose ids do not repeat, the users are
   then the creators of the posts seen.
   */
  method RunChainSnapshot(db: ChainDb, run: RunId, source: Source, limit: Option<nat>, cancel: nat -> bool)
    returns (r: Result<SnapshotSummary, SnapshotError>, ghost fetched: seq<FetchResult>, ghost handled: seq<Post>,
        ghost ending: Ending)
    modifies db
    ensures IsWalk(source, fetched) && |fetched| <= 100_000
    ensures r.Ok? ==> db.faults == old(db.faults)
    ensures r.Err? && db.faults == old(db.faults) ==>
              source(|fetched|, CursorAfter(fetched)) == None && !StopsAt(fetched) && !cancel(|fetched|)
    ensures r.Ok? ==>
              && handled == AllPosts(fetched) && EndsAs(ending, source, limit, cancel, fetched)
              && r.value.pages == |fetched| && r.value.completed == ending.Exhausted?
              && r.value.upserted == WithVideo(handled) && r.value.upserted + r.value.skipped == |handled|
    ensures r.Ok? && r.value.completed ==>
              db.posts == MarkStale(StageAll(old(db.posts), handled, run), run) && db.users == GroupBy(db.posts)
    ensures r.Ok? && r.value.completed && NewRun(old(db.posts), run) && IdsDiffer(handled) ==>
              RollsUp(db.users, handled)
    ensures r == Err(WalkFailed) || !ending.Exhausted? ==>
              db.posts == StageAll(old(db.posts), handled, run) && db.users == old(db.users)
    ensures || db.posts == StageAll(old(db.posts), handled, run)
            || (ending.Exhausted? && StopsAt(fetched) && handled == AllPosts(fetched)
                && db.posts == MarkStale(StageAll(old(db.posts), handled, run), run))
    ensures || db.users == old(db.users)
            || (ending.Exhausted? && db.posts == MarkStale(StageAll(old(db.posts), handled, run), run))
  {
    hide StageAll, MarkStale, GroupBy, RollsUp, IsWalk, AllPosts, StopsAt;
    r, fetched, handled, ending := Walk(db, run, source, limit, cancel);
    if r.Err? { return; }
    if r.value.completed {
      var ok := db.MarkStalePosts(run);
      if !ok { return Err(FinishFailed), fetched, handled, ending; }
      ok := db.RebuildYralUsers();
      if !ok { return Err(FinishFailed), fetched, handled, ending; }
      if NewRun(old(db.posts), run) && IdsDiffer(handled) {
        CompleteWalkRollsUp(old(db.posts), handled, run);
      }
    }
    var recorded := db.Execute();
    if !recorded { return Err(FinishFailed), fetched, handled, ending; }
  }

  // ---- sources that page a fixed list ----

  ghost predicate DistinctIds(list: seq<Post>) {
    && IdsDiffer(list)
    && (forall i :: 0 <= i < |list| ==> list[i].id != "")
  }

  /** Where a reader that last saw `cursor` goes on. */
  function Position(list: seq<Post>, cursor: Option<PostId>): (n: nat)
    ensures n <= |list|
  {
    if cursor.None? || list == [] then 0
    else if list[0].id == cursor.value then 1
    else 1 + Position(list[1..], cursor)
  }

  function UpTo(list: seq<Post>, n: nat): (r: nat)
    ensures r <= |list|
  {
    if n <= |list| then n else |list|
  }

  function Slice(list: seq<Post>, from: nat, size: nat): seq<Post>
    requires from <= |list|
  {
    list[from..UpTo(list, from + size)]
  }

  /** The cursor an answer hands out: its last post, the caller's own, none at all, or an empty one. */
  datatype Handed = LastPost | CallersCursor | NoCursor | EmptyCursor

  /** How one answer is given: its page size and its cursor. */
  datatype Manner = Manner(size: nat, handed: Handed)

  function Answer(list: seq<Post>, from: nat, cursor: Option<PostId>, manner: Manner): FetchResult
    requires from <= |list|
  {
    var page := Slice(list, from, manner.size);
    FetchResult(page,
      match manner.handed
      case LastPost => if page == [] then None else Some(page[|page| - 1].id)
      case CallersCursor => cursor
      case NoCursor => None
      case EmptyCursor => Some(""))
  }

  /** A source that pages through a fixed list, each answer in its own manner. */
  function Paging(list: seq<Post>, manners: nat -> Manner): Source {
    (n: nat, cursor: Option<PostId>) => Some(Answer(list, Position(list, cursor), cursor, manners(n)))
  }

  /** How much of the list the first n answers hold. */
  function Reached(list: seq<Post>, manners: nat -> Manner, n: nat): (r: nat)
    ensures r <= |list|
  {
    if n == 0 then 0 else UpTo(list, Reached(list, manners, n - 1) + manners(n - 1).size)
  }

  function CursorAt(list: seq<Post>, n: nat): Option<PostId>
    requires n <= |list|
  {
    if n == 0 then None else Some(list[n - 1].id)
  }

  lemma {:induction false} PositionOfId(list: seq<Post>, k: nat)
    requires DistinctIds(list) && k < |list|
    ensures Position(list, Some(list[k].id)) == k + 1
  {
    if k > 0 {
      assert list[k] == list[1..][k - 1];
      PositionOfId(list[1..], k - 1);
    }
  }

  lemma AnswerAt(list: seq<Post>, manners: nat -> Manner, k: nat, n: nat)
    requires DistinctIds(list) && n <= |list|
    ensures Paging(list, manners)(k, CursorAt(list, n)) == Some(Answer(list, n, CursorAt(list, n), manners(k)))
  {
    hide Answer;
    if n > 0 {
      PositionOfId(list, n - 1);
    }
    assert Position(list, CursorAt(list, n)) == n;
  }

  /** The walk stops at a short page, and at any cursor but that of the last post, whether or not the list goes on. */
  lemma StopRule(list: seq<Post>, n: nat, manner: Manner)
    requires DistinctIds(list) && n <= |list|
    ensures var cursor := CursorAt(list, n);
            var (stop, next) := WalkStep(cursor, Answer(list, n, cursor, manner), PAGE);
            && (stop <==> !manner.handed.LastPost? || UpTo(list, n + manner.size) - n < PAGE)
            && (!stop ==> next == CursorAt(list, UpTo(list, n + manner.size)))
  {
    var m := UpTo(list, n + manner.size);
    if n < m {
      var page := Slice(list, n, manner.size);
      assert page[|page| - 1] == list[m - 1];
    }
  }

  lemma SliceExtends(list: seq<Post>, from: nat, size: nat)
    requires from <= |list|
    ensures list[..from] + Slice(list, from, size) == list[..UpTo(list, from + size)]
    ensures |Slice(list, from, size)| == UpTo(list, from + size) - from
  {
    var to := UpTo(list, from + size);
    assert list[..to] == list[..from] + list[from..to];
  }

  lemma WalkPrefix(source: Source, fetched: seq<FetchResult>, k: nat)
    requires IsWalk(source, fetched) && k <= |fetched|
    ensures IsWalk(source, fetched[..k])
  {
    forall j | 0 <= j < k
      ensures source(j, CursorAfter(fetched[..k][..j])) == Some(fetched[..k][j]) && !StopsAt(fetched[..k][..j])
    {
      assert fetched[..k][..j] == fetched[..j];
    }
  }

  lemma LastStep(fetched: seq<FetchResult>)
    requires fetched != []
    ensures var (stop, next) := WalkStep(CursorAfter(fetched[..|fetched| - 1]), fetched[|fetched| - 1], PAGE);
            (StopsAt(fetched) <==> stop) && CursorAfter(fetched) == next
  {}

  lemma AnswerPosts(list: seq<Post>, from: nat, cursor: Option<PostId>, manner: Manner)
    requires from <= |list|
    ensures Answer(list, from, cursor, manner).posts == Slice(list, from, manner.size)
  {}

  /** What a walk has after n answers, and when it stops there. */
  lemma {:induction false} PagedWalk(list: seq<Post>, manners: nat -> Manner, fetched: seq<FetchResult>)
    requires DistinctIds(list) && IsWalk(Paging(list, manners), fetched)
    ensures AllPosts(fetched) == list[..Reached(list, manners, |fetched|)]
    ensures !StopsAt(fetched) ==> CursorAfter(fetched) == CursorAt(list, Reached(list, manners, |fetched|))
    ensures fetched != [] ==>
              var k := |fetched| - 1;
              && |fetched[k].posts| == Reached(list, manners, k + 1) - Reached(list, manners, k)
              && (StopsAt(fetched) <==> !manners(k).handed.LastPost? || |fetched[k].posts| < PAGE)
  {
    hide WalkStep, Paging, Answer, DistinctIds, Slice, CursorAt, StopsAt, CursorAfter;
    if fetched != [] {
      var k := |fetched| - 1;
      var before, last := fetched[..k], fetched[k];
      WalkPrefix(Paging(list, manners), fetched, k);
      PagedWalk(list, manners, before);
      var n := Reached(list, manners, k);
      assert Paging(list, manners)(k, CursorAfter(before)) == Some(last) && !StopsAt(before);
      AnswerAt(list, manners, k, n);
      AnswerPosts(list, n, CursorAt(list, n), manners(k));
      StopRule(list, n, manners(k));
      SliceExtends(list, n, manners(k).size);
      LastStep(fetched);
    } else {
      NoWalk(list);
    }
  }

  lemma NoWalk(list: seq<Post>)
    ensures AllPosts([]) == list[..0] && !StopsAt([]) && CursorAfter([]) == CursorAt(list, 0)
  {}

  /** The source moves a walk on from its k-th answer with a full page and the cursor of its last post. */
  predicate MovesOn(manner: Manner) {
    PAGE <= manner.size && manner.handed.LastPost?
  }

  /** Every answer that leaves some of the list for later moves the walk on. */
  ghost predicate NeverStopsEarly(list: seq<Post>, manners: nat -> Manner) {
    forall k: nat :: Reached(list, manners, k + 1) < |list| ==> MovesOn(manners(k))
  }

  lemma {:induction false} ReachedGrows(list: seq<Post>, manners: nat -> Manner, m: nat, n: nat)
    requires m <= n
    ensures Reached(list, manners, m) <= Reached(list, manners, n)
    decreases n
  {
    if m < n {
      ReachedGrows(list, manners, m, n - 1);
    }
  }

  lemma EarlierPagesMoveOn(list: seq<Post>, manners: nat -> Manner, fetched: seq<FetchResult>, k: nat)
    requires DistinctIds(list) && IsWalk(Paging(list, manners), fetched) && k + 1 < |fetched|
    ensures MovesOn(manners(k))
  {
    hide WalkStep, Paging, DistinctIds, StopsAt, AllPosts;
    WalkPrefix(Paging(list, manners), fetched, k + 1);
    PagedWalk(list, manners, fetched[..k + 1]);
    assert !StopsAt(fetched[..k + 1]);
  }

  /**
   A walk that ends as complete has seen the whole list if and only if every answer
   of its source that does not reach the end of the list is full and hands out the
   cursor of its last post.
   */
  lemma {:induction false} CompleteWalkSeesAllIff(list: seq<Post>, manners: nat -> Manner, fetched: seq<FetchResult>)
    requires DistinctIds(list) && IsWalk(Paging(list, manners), fetched) && StopsAt(fetched)
    ensures AllPosts(fetched) == list <==> NeverStopsEarly(list, manners)
  {
    hide WalkStep, Paging, DistinctIds, StopsAt, AllPosts, IsWalk;
    PagedWalk(list, manners, fetched);
    var n := |fetched|;
    assert n > 0 by { NoWalk(list); }
    assert list[..|list|] == list;
    if AllPosts(fetched) == list {
      assert Reached(list, manners, n) == |list|;
      forall k: nat | Reached(list, manners, k + 1) < |list|
        ensures MovesOn(manners(k))
      {
        if n <= k + 1 { ReachedGrows(list, manners, n, k + 1); }
        EarlierPagesMoveOn(list, manners, fetched, k);
      }
    }
    if Reached(list, manners, n) < |list| {
      var k: nat := n - 1;
      assert Reached(list, manners, k + 1) < |list| && !MovesOn(manners(k));
    }
  }

  /**
   What a complete snapshot then does to the posts of the list: those with a video
   are live afterwards exactly as far as the walk got, so it tombstones every live
   one behind the answer that stopped it.
   */
  lemma {:induction false} ListedPostIsLiveIff(list: seq<Post>, manners: nat -> Manner, fetched: seq<FetchResult>,
                                               rows: Posts, run: RunId, k: nat)
    requires DistinctIds(list) && IsWalk(Paging(list, manners), fetched)
    requires NewRun(rows, run)
    requires k < |list| && list[k].videoUid != ""
    ensures var after := MarkStale(StageAll(rows, AllPosts(fetched), run), run);
            var live := list[k].id in after && !after[list[k].id].stale;
            && (live <==> k < Reached(list, manners, |fetched|))
            && (!live && list[k].id in rows ==> list[k].id in after && after[list[k].id].stale)
  {
    hide WalkStep, Paging, AllPosts, StageAll, MarkStale;
    PagedWalk(list, manners, fetched);
    var ps := AllPosts(fetched);
    LiveIffSeen(rows, ps, run, list[k].id);
    assert k < |ps| ==> ps[k] == list[k];
    assert forall j :: 0 <= j < |ps| ==> ps[j] == list[j];
  }

  // ---- pages of exactly the requested size ----

  function Honest(): nat -> Manner {
    (n: nat) => Manner(PAGE, LastPost)
  }

  lemma {:induction false} HonestReach(list: seq<Post>, n: nat)
    ensures Reached(list, Honest(), n) == UpTo(list, PAGE * n)
  {
    if n > 0 {
      HonestReach(list, n - 1);
    }
  }

  /**
   After n pages of an honest source: its first hundred times n posts, and a stop
   exactly when that is past its end.
   */
  lemma {:induction false} HonestWalk(list: seq<Post>, fetched: seq<FetchResult>)
    requires DistinctIds(list) && IsWalk(Paging(list, Honest()), fetched)
    ensures AllPosts(fetched) == list[..if 100 * |fetched| <= |list| then 100 * |fetched| else |list|]
    ensures StopsAt(fetched) <==> |list| < 100 * |fetched|
  {
    hide WalkStep, Paging, DistinctIds, AllPosts, StopsAt;
    PagedWalk(list, Honest(), fetched);
    HonestReach(list, |fetched|);
    if fetched != [] {
      var k := |fetched| - 1;
      HonestReach(list, k);
      WalkPrefix(Paging(list, Honest()), fetched, k);
      HonestWalk(list, fetched[..k]);
      assert !StopsAt(fetched[..k]);
    } else {
      NoWalk(list);
    }
  }

  /**
   A snapshot of an honest source that was neither cancelled nor limited and
   fits the backstop has completed: every post with a video was staged as it is,
   and the counters add up to the list.
   */
  lemma HonestSnapshotCompletes(list: seq<Post>, fetched: seq<FetchResult>, rows: Posts, run: RunId)
    requires DistinctIds(list) && IsWalk(Paging(list, Honest()), fetched)
    requires StopsAt(fetched) || |fetched| == 100_000
    requires |list| / 100 + 1 <= 100_000
    ensures StopsAt(fetched) && |fetched| == |list| / 100 + 1
    ensures AllPosts(fetched) == list
    ensures forall k :: 0 <= k < |list| && list[k].videoUid != "" ==>
              list[k].id in StageAll(rows, list, run) && Shows(StageAll(rows, list, run)[list[k].id], list[k], run)
    ensures NewRun(rows, run) ==> RollsUp(GroupBy(MarkStale(StageAll(rows, list, run), run)), list)
  {
    hide WalkStep, Paging, AllPosts, StopsAt, StageAll;
    HonestWalk(list, fetched);
    var n := |fetched|;
    assert n > 0 by { NoWalk(list); }
    WalkPrefix(Paging(list, Honest()), fetched, n - 1);
    HonestWalk(list, fetched[..n - 1]);
    assert !StopsAt(fetched[..n - 1]);
    assert list[..|list|] == list;
    forall k | 0 <= k < |list| && list[k].videoUid != ""
      ensures list[k].id in StageAll(rows, list, run) && Shows(StageAll(rows, list, run)[list[k].id], list[k], run)
    {
      DistinctPostsStagedAsTheyAre(rows, list, run, k);
    }
    if NewRun(rows, run) { CompleteWalkRollsUp(rows, list, run); }
  }

  // ---- walks that end as complete too early ----

  /** A walk can always make its first fetches. */
  lemma {:induction false} WalkOf(list: seq<Post>, manners: nat -> Manner, n: nat) returns (fetched: seq<FetchResult>)
    requires DistinctIds(list)
    requires forall k :: 0 <= k < n - 1 ==>
               manners(k).handed.LastPost? && PAGE <= Reached(list, manners, k + 1) - Reached(list, manners, k)
    ensures IsWalk(Paging(list, manners), fetched) && |fetched| == n
  {
    hide WalkStep, Paging, Reached, StopsAt, DistinctIds;
    if n == 0 {
      fetched := [];
    } else {
      var before := WalkOf(list, manners, n - 1);
      PagedWalk(list, manners, before);
      if n == 1 { NoWalk(list); }
      fetched := before + [Answers(list, manners, n - 1, CursorAfter(before))];
      WalkExtends(Paging(list, manners), before, fetched[n - 1]);
    }
  }

  function Answers(list: seq<Post>, manners: nat -> Manner, n: nat, cursor: Option<PostId>): (r: FetchResult)
    ensures Paging(list, manners)(n, cursor) == Some(r)
  {
    Answer(list, Position(list, cursor), cursor, manners(n))
  }

  /** A post that exists at the source and is live in the table is stale after a snapshot that ended as complete. */
  ghost predicate TombstonesALivePost(list: seq<Post>, fetched: seq<FetchResult>, rows: Posts, run: RunId, id: PostId) {
    && StopsAt(fetched) && (exists k :: 0 <= k < |list| && list[k].id == id && list[k].videoUid != "")
    && id in rows && !rows[id].stale
    && var after := MarkStale(StageAll(rows, AllPosts(fetched), run), run); id in after && after[id].stale
  }

  /** A one-post page of a two-post list does it. */
  lemma ShortPageTombstones() returns (list: seq<Post>, manners: nat -> Manner, fetched: seq<FetchResult>, rows: Posts)
    ensures IsWalk(Paging(list, manners), fetched) && TombstonesALivePost(list, fetched, rows, 2, "b")
  {
    list := [Post("a", "va", "c", 1, "s"), Post("b", "vb", "c", 2, "s")];
    manners := (n: nat) => Manner(1, LastPost);
    rows := map["b" := Staged(list[1], 1)];
    fetched := WalkOf(list, manners, 1);
    PagedWalk(list, manners, fetched);
    assert Reached(list, manners, 1) == 1;
    ListedPostIsLiveIff(list, manners, fetched, rows, 2, 1);
    assert list[1].id == "b";
  }

  /** The id of the n-th post of a long list. */
  function NthId(n: nat): PostId {
    seq(n + 1, _ => 'x')
  }

  function LongList(size: nat): (list: seq<Post>)
    ensures |list| == size
    ensures forall i :: 0 <= i < size ==> list[i] == Post(NthId(i), "v", "c", 0, "s")
  {
    seq(size, i requires 0 <= i < size => Post(NthId(i), "v", "c", 0, "s"))
  }

  lemma LongListIsDistinct(size: nat)
    ensures DistinctIds(LongList(size))
  {
    var list := LongList(size);
    forall i, j | 0 <= i < j < size ensures list[i].id != list[j].id {
      assert |NthId(i)| != |NthId(j)|;
    }
    forall i | 0 <= i < size ensures list[i].id != "" {
      assert |NthId(i)| != 0;
    }
  }

  function EchoSecond(): nat -> Manner {
    (n: nat) => Manner(PAGE, if n == 1 then CallersCursor else LastPost)
  }

  lemma EchoReach(list: seq<Post>)
    requires |list| == 2 * PAGE + 1
    ensures Reached(list, EchoSecond(), 0) == 0
    ensures Reached(list, EchoSecond(), 1) == PAGE
    ensures Reached(list, EchoSecond(), 2) == 2 * PAGE
  {}

  /** Two full pages, the second of which hands the first page's cursor back, end the walk there. */
  lemma EchoStops(list: seq<Post>) returns (fetched: seq<FetchResult>)
    requires DistinctIds(list) && |list| == 2 * PAGE + 1
    ensures IsWalk(Paging(list, EchoSecond()), fetched) && StopsAt(fetched) && |fetched| == 2
    ensures forall k :: 0 <= k < |fetched| ==> |fetched[k].posts| == PAGE
  {
    hide WalkStep, Paging, DistinctIds, AllPosts, Reached, StopsAt;
    EchoReach(list);
    fetched := WalkOf(list, EchoSecond(), 2);
    PagedWalk(list, EchoSecond(), fetched);
    WalkPrefix(Paging(list, EchoSecond()), fetched, 1);
    PagedWalk(list, EchoSecond(), fetched[..1]);
    assert fetched[..1][0] == fetched[0];
  }

  /** So does a full page that hands the previous page's cursor back: the post behind it is tombstoned. */
  lemma EchoTombstones() returns (list: seq<Post>, fetched: seq<FetchResult>, rows: Posts)
    ensures IsWalk(Paging(list, EchoSecond()), fetched)
    ensures TombstonesALivePost(list, fetched, rows, 2, NthId(2 * PAGE))
    ensures forall k :: 0 <= k < |fetched| ==> |fetched[k].posts| == PAGE
  {
    var last := 2 * PAGE;
    list := LongList(last + 1);
    LongListIsDistinct(last + 1);
    var post := list[last];
    assert post == Post(NthId(last), "v", "c", 0, "s");
    hide WalkStep, Paging, DistinctIds, AllPosts, Reached, IsWalk, StopsAt, MarkStale, StageAll, NthId, LongList,
        EchoSecond;
    rows := map[post.id := Staged(post, 1)];
    EchoReach(list);
    fetched := EchoStops(list);
    ListedPostIsLiveIff(list, EchoSecond(), fetched, rows, 2, last);
  }

  /** So does a full first page that comes without a cursor. */
  lemma LostCursorTombstones(handed: Handed)
    returns (list: seq<Post>, manners: nat -> Manner, fetched: seq<FetchResult>, rows: Posts)
    requires handed in {NoCursor, EmptyCursor}
    ensures IsWalk(Paging(list, manners), fetched)
    ensures TombstonesALivePost(list, fetched, rows, 2, NthId(PAGE))
    ensures |fetched| == 1 && |fetched[0].posts| == PAGE && fetched[0].lastPostId in {None, Some("")}
  {
    list := LongList(PAGE + 1);
    LongListIsDistinct(PAGE + 1);
    var post := list[PAGE];
    assert post == Post(NthId(PAGE), "v", "c", 0, "s");
    manners := (n: nat) => Manner(PAGE, handed);
    assert Reached(list, manners, 0) == 0;
    assert Reached(list, manners, 1) == PAGE;
    fetched := WalkOf(list, manners, 1);
    assert fetched[0].lastPostId in {None, Some("")} by {
      assert Paging(list, manners)(0, CursorAfter(fetched[..0])) == Some(fetched[0]);
    }
    hide WalkStep, Paging, DistinctIds, AllPosts, Reached, IsWalk, StopsAt, MarkStale, StageAll, NthId, LongList;
    rows := map[post.id := Staged(post, 1)];
    PagedWalk(list, manners, fetched);
    ListedPostIsLiveIff(list, manners, fetched, rows, 2, PAGE);
  }
}
