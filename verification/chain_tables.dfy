/** Staging of chain posts, staleness, and the per-creator rollup. */
module ChainTables {
  import opened Wrappers
  import opened SortedIds

  type PostId = string
  type RunId = nat

  datatype Post = Post(id: PostId, videoUid: string, creator: string, createdAt: int, status: string)

  /** A row of yral_posts. */
  datatype PostRow = PostRow(videoUid: string, creator: string, createdAt: int, status: string, run: Option<RunId>,
      stale: bool)

  /** A row of yral_users. */
  datatype Rollup = Rollup(postCount: nat, firstSeen: int, lastSeen: int)

  type Posts = map<PostId, PostRow>

  // ---- staging ----

  function Staged(p: Post, run: RunId): PostRow {
    PostRow(p.videoUid, p.creator, p.createdAt, p.status, Some(run), false)
  }

  ghost predicate IdsDiffer(ps: seq<Post>) {
    forall i, j :: 0 <= i < j < |ps| ==> ps[i].id != ps[j].id
  }

  ghost predicate NewRun(rows: Posts, run: RunId) {
    forall id :: id in rows ==> rows[id].run != Some(run)
  }

  /** The row says of the post what the chain does, and that this run saw it. */
  ghost predicate Shows(row: PostRow, p: Post, run: RunId) {
    && row.videoUid == p.videoUid && row.creator == p.creator
    && row.createdAt == p.createdAt && row.status == p.status
    && row.run == Some(run) && !row.stale
  }

  /** Posts without a video are skipped. */
  function Stage(rows: Posts, p: Post, run: RunId): Posts {
    if p.videoUid == "" then rows else rows[p.id := Staged(p, run)]
  }

  function StageAll(rows: Posts, ps: seq<Post>, run: RunId): Posts {
    if ps == [] then rows else Stage(StageAll(rows, ps[..|ps| - 1], run), ps[|ps| - 1], run)
  }

  /** How many of the posts have a video. */
  function WithVideo(ps: seq<Post>): nat {
    if ps == [] then 0 else WithVideo(ps[..|ps| - 1]) + if ps[|ps| - 1].videoUid == "" then 0 else 1
  }

  ghost predicate Seen(ps: seq<Post>, id: PostId) {
    exists k :: 0 <= k < |ps| && ps[k].id == id && ps[k].videoUid != ""
  }

  lemma StageExtends(rows: Posts, ps: seq<Post>, p: Post, run: RunId)
    ensures StageAll(rows, ps + [p], run) == Stage(StageAll(rows, ps, run), p, run)
    ensures WithVideo(ps + [p]) == WithVideo(ps) + if p.videoUid == "" then 0 else 1
  {
    assert (ps + [p])[..|ps|] == ps;
  }

  lemma {:induction false} WithVideoCounts(ps: seq<Post>)
    ensures WithVideo(ps) == |set k: nat | k < |ps| && ps[k].videoUid != ""|
  {
    var all := set k: nat | k < |ps| && ps[k].videoUid != "";
    if ps == [] {
      assert all == {};
    } else {
      var n := |ps| - 1;
      var before := set k: nat | k < n && ps[..n][k].videoUid != "";
      WithVideoCounts(ps[..n]);
      assert all == if ps[n].videoUid == "" then before else before + {n};
    }
  }

  function Row(rows: Posts, id: PostId): Option<PostRow> {
    if id in rows then Some(rows[id]) else None
  }

  /** The k-th post carries the id and has a video, and no later one does. */
  ghost predicate LastWith(ps: seq<Post>, k: nat, id: PostId) {
    && k < |ps| && ps[k].id == id && ps[k].videoUid != ""
    && forall j :: k < j < |ps| && ps[j].id == id ==> ps[j].videoUid == ""
  }

  /** A row shows the last post seen under its id, or is what it was before. */
  lemma {:induction false} StagedRows(rows: Posts, ps: seq<Post>, run: RunId, id: PostId)
    ensures var staged := StageAll(rows, ps, run);
            if Seen(ps, id) then exists k: nat :: LastWith(ps, k, id) && id in staged && Shows(staged[id], ps[k], run)
            else Row(staged, id) == Row(rows, id)
  {
    if ps != [] {
      var n := |ps| - 1;
      var before := ps[..n];
      StagedRows(rows, before, run, id);
      if ps[n].id == id && ps[n].videoUid != "" {
        assert LastWith(ps, n, id);
      } else if Seen(before, id) {
        var k: nat :| LastWith(before, k, id) && Shows(StageAll(rows, before, run)[id], before[k], run);
        assert ps[k] == before[k] && LastWith(ps, k, id);
      } else {
        assert forall k :: 0 <= k < n ==> ps[k] == before[k];
      }
    }
  }

  /** Staging alone never makes a row stale. */
  lemma {:induction false} StagingTombstonesNothing(rows: Posts, ps: seq<Post>, run: RunId, id: PostId)
    requires id in rows && !rows[id].stale
    ensures id in StageAll(rows, ps, run) && !StageAll(rows, ps, run)[id].stale
  {
    StagedRows(rows, ps, run, id);
  }

  /** When no id repeats, every post with a video is staged as it is. */
  lemma {:induction false} DistinctPostsStagedAsTheyAre(rows: Posts, ps: seq<Post>, run: RunId, k: nat)
    requires k < |ps| && ps[k].videoUid != ""
    requires IdsDiffer(ps)
    ensures ps[k].id in StageAll(rows, ps, run) && Shows(StageAll(rows, ps, run)[ps[k].id], ps[k], run)
  {
    StagedRows(rows, ps, run, ps[k].id);
    assert Seen(ps, ps[k].id);
  }

  // ---- staleness ----

  /** UPDATE ... SET stale = TRUE WHERE NOT stale AND snapshot_run_id IS DISTINCT FROM run. */
  function MarkStale(rows: Posts, run: RunId): Posts {
    map id | id in rows :: if rows[id].run == Some(run) then rows[id] else rows[id].(stale := true)
  }

  /** After a complete walk under a new run id, a row is live if and only if the walk saw it. */
  lemma {:induction false} LiveIffSeen(rows: Posts, ps: seq<Post>, run: RunId, id: PostId)
    requires NewRun(rows, run)
    ensures var after := MarkStale(StageAll(rows, ps, run), run);
            && (id in after <==> id in rows || Seen(ps, id))
            && (id in after ==> (!after[id].stale <==> Seen(ps, id)))
  {
    StagedRows(rows, ps, run, id);
  }

  // ---- the rollup ----

  function Group(rows: Posts, creator: string): set<PostId> {
    set id | id in rows && !rows[id].stale && rows[id].creator == creator
  }

  function Creators(rows: Posts): set<string> {
    set id | id in rows && !rows[id].stale :: rows[id].creator
  }

  function Times(rows: Posts, creator: string): set<int> {
    set id | id in Group(rows, creator) :: rows[id].createdAt
  }

  function RollupOf(rows: Posts, creator: string): Rollup
    requires creator in Creators(rows)
  {
    TimesNonEmpty(rows, creator);
    var times := Sorted(Times(rows, creator));
    Rollup(|Group(rows, creator)|, times[0], times[|times| - 1])
  }

  /** SELECT creator, count(*), min(created_at), max(created_at) ... WHERE NOT stale GROUP BY creator. */
  function GroupBy(rows: Posts): map<string, Rollup> {
    map c | c in Creators(rows) :: RollupOf(rows, c)
  }

  lemma TimesNonEmpty(rows: Posts, creator: string)
    requires creator in Creators(rows)
    ensures Times(rows, creator) != {}
  {
    var id :| id in rows && !rows[id].stale && rows[id].creator == creator;
    assert id in Group(rows, creator);
    assert rows[id].createdAt in Times(rows, creator);
  }

  /** The rollup counts a creator's live posts and spans exactly their times. */
  lemma RollupCountsAndSpans(rows: Posts, creator: string)
    ensures var mine := set id | id in rows && !rows[id].stale && rows[id].creator == creator;
            && (creator in GroupBy(rows) <==> mine != {})
            && (creator in GroupBy(rows) ==>
                  var r := GroupBy(rows)[creator];
                  && r.postCount == |mine|
                  && (forall id :: id in mine ==> r.firstSeen <= rows[id].createdAt <= r.lastSeen)
                  && (exists id :: id in mine && rows[id].createdAt == r.firstSeen)
                  && (exists id :: id in mine && rows[id].createdAt == r.lastSeen))
  {
    var mine := set id | id in rows && !rows[id].stale && rows[id].creator == creator;
    assert mine == Group(rows, creator);
    if id :| id in Group(rows, creator) {
      assert rows[id].creator in Creators(rows);
    }
    if creator in Creators(rows) {
      TimesNonEmpty(rows, creator);
      var times := Times(rows, creator);
      var first, last := Sorted(times)[0], Sorted(times)[|times| - 1];
      SortedMember(times, 0);
      SortedMember(times, |times| - 1);
      forall id | id in Group(rows, creator) ensures first <= rows[id].createdAt <= last {
        assert rows[id].createdAt in times;
        SortedHas(times, rows[id].createdAt);
        SortedOrder(times);
      }
      assert first in times && last in times;
    }
  }

  // ---- after a complete walk ----

  /** The listed posts of a creator that have a video. */
  function PostsOf(ps: seq<Post>, creator: string): set<nat> {
    set k: nat | k < |ps| && ps[k].videoUid != "" && ps[k].creator == creator
  }

  /** What the rollup says of one creator: the number of those posts and their span. */
  ghost predicate RollsUpOne(users: map<string, Rollup>, ps: seq<Post>, c: string) {
    && (c in users <==> PostsOf(ps, c) != {})
    && (c in users ==>
          && users[c].postCount == |PostsOf(ps, c)|
          && (forall k :: k in PostsOf(ps, c) ==> users[c].firstSeen <= ps[k].createdAt <= users[c].lastSeen)
          && (exists k :: k in PostsOf(ps, c) && ps[k].createdAt == users[c].firstSeen)
          && (exists k :: k in PostsOf(ps, c) && ps[k].createdAt == users[c].lastSeen))
  }

  /** The users are the creators of the listed posts with a video, each with their number and their span. */
  ghost predicate RollsUp(users: map<string, Rollup>, ps: seq<Post>) {
    forall c: string :: RollsUpOne(users, ps, c)
  }

  function IdsAt(ps: seq<Post>, ks: set<nat>): set<PostId>
    requires forall k :: k in ks ==> k < |ps|
  {
    set k | k in ks :: ps[k].id
  }

  lemma {:induction false} AsManyIds(ps: seq<Post>, ks: set<nat>)
    requires forall k :: k in ks ==> k < |ps|
    requires IdsDiffer(ps)
    ensures |IdsAt(ps, ks)| == |ks|
    decreases ks
  {
    if ks == {} {
      assert IdsAt(ps, ks) == {};
    } else {
      var k :| k in ks;
      AsManyIds(ps, ks - {k});
      assert ps[k].id in IdsAt(ps, ks);
      assert IdsAt(ps, ks - {k}) == IdsAt(ps, ks) - {ps[k].id};
    }
  }

  /** The live rows of a creator are those of the posts that were seen. */
  lemma LiveRowsAreSeen(rows: Posts, ps: seq<Post>, run: RunId, creator: string)
    requires NewRun(rows, run)
    requires IdsDiffer(ps)
    ensures var after := MarkStale(StageAll(rows, ps, run), run);
            && Group(after, creator) == IdsAt(ps, PostsOf(ps, creator))
            && (forall k :: k in PostsOf(ps, creator) ==>
                  ps[k].id in after && after[ps[k].id].createdAt == ps[k].createdAt)
  {
    var staged := StageAll(rows, ps, run);
    var after := MarkStale(staged, run);
    hide StageAll;
    forall k: nat | k < |ps| && ps[k].videoUid != ""
      ensures ps[k].id in after && Shows(after[ps[k].id], ps[k], run)
    {
      DistinctPostsStagedAsTheyAre(rows, ps, run, k);
    }
    forall id | id in Group(after, creator) ensures id in IdsAt(ps, PostsOf(ps, creator)) {
      LiveIffSeen(rows, ps, run, id);
      var k: nat :| k < |ps| && ps[k].id == id && ps[k].videoUid != "";
      assert k in PostsOf(ps, creator);
    }
  }

  lemma CreatorRollsUp(rows: Posts, ps: seq<Post>, run: RunId, c: string)
    requires NewRun(rows, run) && IdsDiffer(ps)
    ensures RollsUpOne(GroupBy(MarkStale(StageAll(rows, ps, run), run)), ps, c)
  {
    var after := MarkStale(StageAll(rows, ps, run), run);
    hide StageAll, MarkStale, GroupBy;
    RollupCountsAndSpans(after, c);
    LiveRowsAreSeen(rows, ps, run, c);
    AsManyIds(ps, PostsOf(ps, c));
    var mine := set id | id in after && !after[id].stale && after[id].creator == c;
    assert mine == Group(after, c);
    if k :| k in PostsOf(ps, c) { assert ps[k].id in mine; }
  }

  /**
   What a complete walk under a new run id leaves in the rollup, whatever rows and
   users there were before, in terms of the posts that it saw.
   */
  lemma CompleteWalkRollsUp(rows: Posts, ps: seq<Post>, run: RunId)
    requires NewRun(rows, run) && IdsDiffer(ps)
    ensures RollsUp(GroupBy(MarkStale(StageAll(rows, ps, run), run)), ps)
  {
    forall c: string ensures RollsUpOne(GroupBy(MarkStale(StageAll(rows, ps, run), run)), ps, c) {
      CreatorRollsUp(rows, ps, run, c);
    }
  }
}
