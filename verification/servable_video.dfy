/** What any sequence of servable-video upserts leaves in the master and source tables. */
module ServableVideo {
  import opened Wrappers
  import opened SortedIds
  import opened MediaTables

  /** The upserts of one video, oldest first. */
  function UpsertAll(t: Tables, id: VideoId, inputs: seq<MediaRow>): Tables {
    if inputs == [] then t
    else UpsertMedia(UpsertAll(t, id, inputs[..|inputs| - 1]), id, inputs[|inputs| - 1])
  }

  /** The last non-null value supplied for a nullable column. */
  function LastNonNull(inputs: seq<MediaRow>, c: Column): Option<Cell> {
    if inputs == [] then None
    else
      var last := inputs[|inputs| - 1];
      if c in last.optional then Some(last.optional[c]) else LastNonNull(inputs[..|inputs| - 1], c)
  }

  /** The first source_ref supplied. */
  function FirstRef(inputs: seq<MediaRow>): Option<SourceRef> {
    if inputs == [] then None
    else if inputs[0].sourceRef.Some? then inputs[0].sourceRef
    else FirstRef(inputs[1..])
  }

  function Cells(row: MediaRow, c: Column): Option<Cell> {
    if c in row.optional then Some(row.optional[c]) else None
  }

  function Before(t: Tables, id: VideoId, c: Column): Option<Cell> {
    if id in t.master then Cells(t.master[id], c) else None
  }

  function RefBefore(t: Tables, id: VideoId): Option<SourceRef> {
    if id in t.master then t.master[id].sourceRef else None
  }

  lemma {:induction false} FirstRefExtends(inputs: seq<MediaRow>, last: MediaRow)
    ensures FirstRef(inputs + [last]) == if FirstRef(inputs).Some? then FirstRef(inputs) else last.sourceRef
  {
    if inputs != [] {
      FirstRefExtends(inputs[1..], last);
      assert (inputs + [last])[1..] == inputs[1..] + [last];
    }
  }

  lemma OneUpsert(t: Tables, id: VideoId, input: MediaRow, c: Column)
    ensures id in UpsertMedia(t, id, input).master
    ensures var row := UpsertMedia(t, id, input).master[id];
            && Cells(row, c) == (if c in input.optional then Some(input.optional[c]) else Before(t, id, c))
            && row.sourceRef == (if RefBefore(t, id).Some? then RefBefore(t, id) else input.sourceRef)
            && row.sourceKind == input.sourceKind
            && row.servableStatus == input.servableStatus
            && row.discoveredFrom == input.discoveredFrom
  {}

  /**
   Every nullable column keeps its last non-null input, source_ref its first,
   and the mandatory columns their last; what the row held before counts as the
   oldest input.
   */
  lemma {:induction false} ColumnsAfterUpserts(t: Tables, id: VideoId, inputs: seq<MediaRow>, c: Column)
    requires inputs != []
    ensures id in UpsertAll(t, id, inputs).master
    ensures var row, last := UpsertAll(t, id, inputs).master[id], inputs[|inputs| - 1];
            && Cells(row, c) == (if LastNonNull(inputs, c).Some? then LastNonNull(inputs, c) else Before(t, id, c))
            && row.sourceRef == (if RefBefore(t, id).Some? then RefBefore(t, id) else FirstRef(inputs))
            && row.sourceKind == last.sourceKind
            && row.servableStatus == last.servableStatus
            && row.discoveredFrom == last.discoveredFrom
  {
    hide UpsertMedia, FirstRef;
    var front, last := inputs[..|inputs| - 1], inputs[|inputs| - 1];
    assert inputs == front + [last];
    FirstRefExtends(front, last);
    OneUpsert(UpsertAll(t, id, front), id, last, c);
    if front != [] {
      ColumnsAfterUpserts(t, id, front, c);
    } else {
      NoRef();
    }
  }

  lemma NoRef()
    ensures FirstRef([]) == None
  {}

  predicate Supplies(input: MediaRow, kind: string, ref: SourceRef) {
    input.sourceKind == kind && input.sourceRef == Some(ref)
  }

  /** The source table gains exactly the (kind, ref) pairs supplied, and no payload is lost. */
  lemma {:induction false} SourcesAfterUpserts(t: Tables, id: VideoId, inputs: seq<MediaRow>, key: SourceKey)
    ensures key in UpsertAll(t, id, inputs).sources <==>
            || key in t.sources
            || (key.videoId == id && exists i :: 0 <= i < |inputs| && Supplies(inputs[i], key.kind, key.ref))
    ensures key in UpsertAll(t, id, inputs).sources ==>
              UpsertAll(t, id, inputs).sources[key] == if key in t.sources then t.sources[key] else None
  {
    if inputs != [] {
      var n := |inputs| - 1;
      SourcesAfterUpserts(t, id, inputs[..n], key);
      if key.videoId == id && Supplies(inputs[n], key.kind, key.ref) {
        assert key in UpsertAll(t, id, inputs).sources;
      } else if i :| 0 <= i < |inputs| && Supplies(inputs[i], key.kind, key.ref) {
        assert i < n ==> Supplies(inputs[..n][i], key.kind, key.ref);
      }
    }
  }

  /** Other videos are left alone. */
  lemma {:induction false} OtherVideosUntouched(t: Tables, id: VideoId, inputs: seq<MediaRow>)
    ensures var t' := UpsertAll(t, id, inputs);
            && t'.master - {id} == t.master - {id}
            && t'.hashes == t.hashes && t'.feed == t.feed && t'.failures == t.failures
  {
    if inputs != [] {
      OtherVideosUntouched(t, id, inputs[..|inputs| - 1]);
    }
  }

  /**
   The outcome tells the caller whether anything changed: Unchanged exactly when
   the row was there and stays as it is, so repeating an upsert is Unchanged.
   */
  lemma {:induction false} RepeatedUpsertIsUnchanged(t: Tables, id: VideoId, input: MediaRow)
    ensures MediaOutcome(t, id, input) == Unchanged <==> id in t.master && UpsertMedia(t, id, input).master == t.master
    ensures var t' := UpsertMedia(t, id, input);
            MediaOutcome(t', id, input) == Unchanged && UpsertMedia(t', id, input) == t'
  {
    var t' := UpsertMedia(t, id, input);
    var row := t'.master[id];
    assert row.optional + input.optional == row.optional;
    assert Coalesce(row, input) == row;
    assert t'.master[id := row] == t'.master;
    if id in t.master && t'.master == t.master {
      assert t.master[id] == row;
    }
    if MediaOutcome(t, id, input) == Unchanged {
      assert t.master[id := t.master[id]] == t.master;
    }
  }
}
