/** What any sequence of requests, failing in any way, leaves in the two stores. */
module ArtifactHistory {
  import opened Int64
  import opened BlobStore
  import opened Totals
  import opened ArtifactService
  import opened Network
  import QuotaBound

  /** The stores after a run of requests from an empty service. */
  function Outcome(rs: seq<Request>): World {
    if rs == [] then World(map[], map[]) else After(Outcome(rs[..|rs| - 1]), rs[|rs| - 1])
  }

  lemma OutcomePrefix(rs: seq<Request>, n: nat)
    requires n < |rs|
    ensures Outcome(rs[..n + 1]) == After(Outcome(rs[..n]), rs[n])
  {
    assert rs[..n + 1][..n] == rs[..n];
  }

  // ---- Every row has a blob. ----

  predicate RowsHaveBlobs(w: World) { w.rows.Keys <= w.blobs.Keys }

  /** The save takes its blob away while its name has a row: it is a replace whose lookup failed, or its
      row was recorded and the reply lost. */
  predicate Strands(w: World, r: Request) {
    Compensates(w, r) && (r.key in w.rows || r.faults.record.ReplyLost?)
  }

  /** Exactly such a save takes a row's blob away. */
  lemma RowKeepsBlobUnlessStranded(w: World, r: Request)
    requires RowsHaveBlobs(w)
    ensures RowsHaveBlobs(After(w, r)) <==> !Strands(w, r)
  {
    if Strands(w, r) { assert r.key in After(w, r).rows; }
  }

  ghost predicate RowsHaveBlobsThroughout(rs: seq<Request>) {
    forall n :: 0 <= n <= |rs| ==> RowsHaveBlobs(Outcome(rs[..n]))
  }

  ghost predicate NeverStrands(rs: seq<Request>) {
    forall n :: 0 <= n < |rs| ==> !Strands(Outcome(rs[..n]), rs[n])
  }

  /** Over a whole run every row has a blob at every moment exactly when no save strands a row. */
  lemma {:induction false} RowsHaveBlobsExactly(rs: seq<Request>)
    ensures RowsHaveBlobsThroughout(rs) <==> NeverStrands(rs)
  {
    forall n | 0 <= n < |rs| && RowsHaveBlobs(Outcome(rs[..n]))
      ensures RowsHaveBlobs(Outcome(rs[..n + 1])) <==> !Strands(Outcome(rs[..n]), rs[n])
    {
      OutcomePrefix(rs, n);
      RowKeepsBlobUnlessStranded(Outcome(rs[..n]), rs[n]);
    }
    if NeverStrands(rs) {
      for n := 0 to |rs|
        invariant forall m :: 0 <= m <= n ==> RowsHaveBlobs(Outcome(rs[..m]))
      {
      }
    } else {
      var n :| 0 <= n < |rs| && Strands(Outcome(rs[..n]), rs[n]);
      assert RowsHaveBlobs(Outcome(rs[..n])) ==> !RowsHaveBlobs(Outcome(rs[..n + 1]));
    }
  }

  function OneByte(key: Key, limit: int, faults: SaveFaults): Request {
    Save(key, Body([1], false), limit, Wrote(BlobStore.Stored(1, Sha256([1]))), faults)
  }

  const NO_FAULTS := SaveFaults(false, false, false, Answered, false)
  const LOOKUP_AND_RECORD := SaveFaults(false, false, true, Refused, false)
  const RECORD_UNANSWERED := SaveFaults(false, false, false, ReplyLost, false)

  lemma OneByteWorlds(key: Key)
    ensures Outcome([]) == World(map[], map[])
    ensures Outcome([OneByte(key, 10, NO_FAULTS)]) == World(map[key := Describe([1])], map[key := [1]])
  {
    var first := OneByte(key, 10, NO_FAULTS);
    assert [first][..0] == [] && Content(first) == [1];
  }

  lemma OneByteTotals(key: Key)
    ensures Total(Sizes(map[], key.userId)) == 0 && Total(Sizes(map[key := Describe([1])], key.userId)) == 1
  {
    var none: map<string, nat> := map[];
    assert Sizes(map[], key.userId) == none && none - {key.name} == none;
    SizesUpdate(map[], key, Describe([1]));
    TotalInsert(none, key.name, 1);
  }

  /** Two saves the handler can receive, under a cap of ten bytes, that leave a row without a blob: the
      second is a replace whose lookup and record step fail. */
  lemma MisreadIsPossible(key: Key)
    ensures var first, second := OneByte(key, 10, NO_FAULTS), OneByte(key, 9, LOOKUP_AND_RECORD);
      && Possible(Outcome([]), 10, first) && Possible(Outcome([first]), 10, second)
      && key in Outcome([first, second]).rows && key !in Outcome([first, second]).blobs
  {
    var first, second := OneByte(key, 10, NO_FAULTS), OneByte(key, 9, LOOKUP_AND_RECORD);
    OneByteWorlds(key);
    OneByteTotals(key);
    assert [first, second][..1] == [first];
  }

  /** One save the handler can receive that leaves a row without a blob: a first save whose row is recorded
      and the reply lost. */
  lemma LostReplyStrands(key: Key)
    ensures var first := OneByte(key, 10, RECORD_UNANSWERED);
      && Possible(Outcome([]), 10, first) && key !in Outcome([]).rows
      && key in Outcome([first]).rows && key !in Outcome([first]).blobs
  {
    OneByteTotals(key);
    OneByteLost(key);
  }

  lemma OneByteLost(key: Key)
    ensures Outcome([]) == World(map[], map[])
    ensures Outcome([OneByte(key, 10, RECORD_UNANSWERED)]) == World(map[key := Describe([1])], map[])
  {
    var first := OneByte(key, 10, RECORD_UNANSWERED);
    assert [first][..0] == [] && Content(first) == [1];
    assert map[key := [1 as Byte]] - {key} == map[];
  }

  // ---- What each row and each blob came from. ----

  predicate StoredAt(rs: seq<Request>, n: nat, key: Key) {
    n < |rs| && rs[n].key == key && Stores(rs[n])
  }

  predicate RecordedAt(rs: seq<Request>, n: nat, key: Key) {
    StoredAt(rs, n, key) && !rs[n].faults.record.Refused?
  }

  predicate DroppedAt(rs: seq<Request>, n: nat, key: Key) {
    n < |rs| && rs[n].key == key && Drops(Outcome(rs[..n]), rs[n])
  }

  /** The request left the key's blob without a row: a save whose row was refused and whose blob could not
      be removed, or a delete of the row that did not get as far as removing the blob, or failed to. */
  predicate LeavesAt(rs: seq<Request>, n: nat, key: Key) {
    && n < |rs| && rs[n].key == key
    && var w := Outcome(rs[..n]);
       || (Stores(rs[n]) && rs[n].faults.record.Refused? && key !in w.rows && rs[n].faults.remove)
       || (Drops(w, rs[n]) && key in w.blobs && (rs[n].dropFaults.rowDelete.ReplyLost? || rs[n].dropFaults.remove))
  }

  lemma AtPrefix(rs: seq<Request>, n: nat, key: Key)
    requires n < |rs| - 1
    ensures var p := rs[..|rs| - 1];
      && StoredAt(p, n, key) == StoredAt(rs, n, key)
      && RecordedAt(p, n, key) == RecordedAt(rs, n, key)
      && DroppedAt(p, n, key) == DroppedAt(rs, n, key)
      && LeavesAt(p, n, key) == LeavesAt(rs, n, key)
  {
    assert rs[..|rs| - 1][..n] == rs[..n];
  }

  ghost predicate LastRecorded(rs: seq<Request>, i: nat, key: Key) {
    RecordedAt(rs, i, key) && forall m :: i < m < |rs| ==> !RecordedAt(rs, m, key) && !DroppedAt(rs, m, key)
  }

  ghost predicate LastStored(rs: seq<Request>, j: nat, key: Key) {
    StoredAt(rs, j, key) && forall m :: j < m < |rs| ==> !StoredAt(rs, m, key)
  }

  lemma LastRecordedGrows(rs: seq<Request>, i: nat, key: Key)
    requires rs != [] && LastRecorded(rs[..|rs| - 1], i, key)
    requires !RecordedAt(rs, |rs| - 1, key) && !DroppedAt(rs, |rs| - 1, key)
    ensures LastRecorded(rs, i, key)
  {
    AtPrefix(rs, i, key);
    forall m | i < m < |rs| - 1 ensures !RecordedAt(rs, m, key) && !DroppedAt(rs, m, key) {
      AtPrefix(rs, m, key);
    }
  }

  lemma LastStoredGrows(rs: seq<Request>, j: nat, key: Key)
    requires rs != [] && LastStored(rs[..|rs| - 1], j, key) && !StoredAt(rs, |rs| - 1, key)
    ensures LastStored(rs, j, key)
  {
    AtPrefix(rs, j, key);
    forall m | j < m < |rs| - 1 ensures !StoredAt(rs, m, key) {
      AtPrefix(rs, m, key);
    }
  }

  /** A row describes the last save of its name that was recorded, made since the last delete; its blob,
      if it has one, is the content of the last save that reached the blob store.  The two are the same
      save unless the row of that last one was refused. */
  lemma {:induction false} RowAndBlobOrigins(rs: seq<Request>, key: Key) returns (i: nat, j: nat)
    requires key in Outcome(rs).rows
    ensures LastRecorded(rs, i, key) && LastStored(rs, j, key) && i <= j
    ensures Outcome(rs).rows[key] == Describe(Content(rs[i]))
    ensures key in Outcome(rs).blobs ==> Outcome(rs).blobs[key] == Content(rs[j])
    ensures i < j ==> rs[j].faults.record.Refused?
    decreases |rs|
  {
    var last := |rs| - 1;
    if RecordedAt(rs, last, key) {
      i, j := last, last;
    } else {
      assert key in Outcome(rs[..last]).rows;
      i, j := RowAndBlobOrigins(rs[..last], key);
      LastRecordedGrows(rs, i, key);
      if StoredAt(rs, last, key) {
        j := last;
      } else {
        LastStoredGrows(rs, j, key);
      }
    }
  }

  /** Size and digest of a row match its blob except after a save whose row was refused, up to the next
      recorded save or delete of that name; and there is a blob when no save strands a row. */
  lemma RowMatchesBlobUnlessStale(rs: seq<Request>, key: Key)
    requires key in Outcome(rs).rows
    requires forall n: nat :: StoredAt(rs, n, key) && rs[n].faults.record.Refused? ==>
      exists m :: n < m < |rs| && (RecordedAt(rs, m, key) || DroppedAt(rs, m, key))
    ensures key in Outcome(rs).blobs ==> Outcome(rs).rows[key] == Describe(Outcome(rs).blobs[key])
    ensures NeverStrands(rs) ==> key in Outcome(rs).blobs
  {
    var i, j := RowAndBlobOrigins(rs, key);
    RowsHaveBlobsExactly(rs);
    assert rs[..|rs|] == rs;
  }

  // ---- Blobs without a row. ----

  predicate Orphan(w: World, key: Key) { key in w.blobs && key !in w.rows }

  /** Nothing the last request does to the blob brings it a row or takes it away. */
  predicate Stays(rs: seq<Request>, m: nat, key: Key) {
    StoredAt(rs, m, key) ==> rs[m].faults.record.Refused? && rs[m].faults.remove
  }

  /** The key's blob was left behind at n and no later save of that name recorded or removed it. */
  ghost predicate LeftBehindAt(rs: seq<Request>, n: nat, key: Key) {
    LeavesAt(rs, n, key) && forall m :: n < m < |rs| ==> Stays(rs, m, key)
  }

  /** The last request keeps what was left behind unless it records or removes the name's blob. */
  lemma LeftBehindStep(rs: seq<Request>, n: nat, key: Key)
    requires rs != [] && n < |rs| - 1
    ensures var last := |rs| - 1; LeftBehindAt(rs, n, key) <==> LeftBehindAt(rs[..last], n, key) && Stays(rs, last, key)
  {
    var p := rs[..|rs| - 1];
    AtPrefix(rs, n, key);
    forall m | n < m < |p| ensures Stays(p, m, key) == Stays(rs, m, key) {
      AtPrefix(rs, m, key);
    }
  }

  /** A blob has no row exactly when some request left it behind and nothing since has recorded or removed
      it, over any run. */
  lemma {:induction false} OrphansExactly(rs: seq<Request>, key: Key)
    ensures Orphan(Outcome(rs), key) <==> exists n :: LeftBehindAt(rs, n, key)
    decreases |rs|
  {
    if rs != [] {
      var last := |rs| - 1;
      OrphansExactly(rs[..last], key);
      OrphanStep(rs, key);
      if Orphan(Outcome(rs), key) {
        if LeavesAt(rs, last, key) {
          assert LeftBehindAt(rs, last, key);
        } else {
          var n :| LeftBehindAt(rs[..last], n, key);
          LeftBehindStep(rs, n, key);
        }
      } else if n: nat :| LeftBehindAt(rs, n, key) {
        if n < last {
          LeftBehindStep(rs, n, key);
        }
      }
    }
  }

  lemma OrphanStep(rs: seq<Request>, key: Key)
    requires rs != []
    ensures var last := |rs| - 1;
      Orphan(Outcome(rs), key) <==>
        LeavesAt(rs, last, key) || (Orphan(Outcome(rs[..last]), key) && Stays(rs, last, key))
  {
  }

  function OneDrop(key: Key): Request { Drop(key, DropFaults(false, ReplyLost, false)) }

  /** A delete whose row goes with the reply lost leaves a blob without a row, though no removal failed. */
  lemma LostReplyOrphans(key: Key)
    ensures Orphan(Outcome([OneByte(key, 10, NO_FAULTS), OneDrop(key)]), key)
  {
    var first := OneByte(key, 10, NO_FAULTS);
    OneByteWorlds(key);
    assert [first, OneDrop(key)][..1] == [first];
  }

  // ---- The quota, one request at a time. ----

  ghost function Idle(w: World, user: string, override: QuotaBound.Override, default: nat): QuotaBound.State {
    QuotaBound.State(Sizes(w.rows, user), override, default, map[])
  }

  /** A save recorded under the user's override, or under the default cap without one, is an uninterrupted run
      of the concurrent machine's steps. */
  lemma SaveIsARun(w: World, override: QuotaBound.Override, default: nat, r: Request)
    returns (cap: nat, es: seq<QuotaBound.Event>)
    requires Possible(w, if override.MaxBytes? then override.bytes else default, r)
    requires Stores(r) && !r.faults.record.Refused?
    requires default <= MAX_INT64 && (override.MaxBytes? ==> override.bytes <= MAX_INT64)
    requires Total(Sizes(w.rows, r.key.userId)) <= MAX_INT64
    ensures cap == if override.MaxBytes? then override.bytes else default
    ensures QuotaBound.Run(Idle(w, r.key.userId, override, default), es, 1, cap)
    ensures QuotaBound.Final(Idle(w, r.key.userId, override, default), es, 1, cap) ==
      Idle(After(w, r), r.key.userId, override, default)
  {
    cap := if override.MaxBytes? then override.bytes else default;
    var s := Idle(w, r.key.userId, override, default);
    assert r.key.name in s.rows <==> r.key in w.rows;
    HeadroomMeaning(w, cap, r.key, r.faults.lookup);
    es := QuotaBound.UninterruptedUpload(s, cap, r.key.name, r.faults.lookup, r.limit, |Content(r)|);
    SizesUpdate(w.rows, r.key, Describe(Content(r)));
  }
}
