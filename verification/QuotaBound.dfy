/** Concurrent uploads of one user against that user's quota.

    An upload is four database steps and one blob write: it reads the cap, reads the usage, reads the
    size it would replace, streams the blob, records the row.  Other requests of the same user
    (uploads, deletes) and admin quota changes can run between any two of these. */
module QuotaBound {
  import opened Totals

  type Name = string
  type UploadId = nat

  datatype Upload =
    | Capped(name: Name, cap: nat)               // effectiveQuota answered
    | Measured(name: Name, cap: nat, used: nat)  // usage answered
    | Admitted(name: Name, headroom: nat)        // headroom > 0; the blob is being written
    | Written(name: Name, size: nat)             // the blob is stored, the row is not

  datatype Override = NoOverride | MaxBytes(bytes: nat)

  datatype State = State(rows: map<Name, nat>, override: Override, default: nat, uploads: map<UploadId, Upload>)
  {
    function Cap(): nat { match override case NoOverride => default case MaxBytes(b) => b }
  }

  datatype Event =
    | Begin(id: UploadId, name: Name)
    | ReadUsage(id: UploadId)
    | ReadPrevious(id: UploadId, lookupFails: bool)
    | StoreBlob(id: UploadId, size: nat)
    | Record(id: UploadId)
    | Fail(id: UploadId)          // any request that ends without a row: refused, write or record failed
    | DeleteRow(name: Name)
    | ChangeQuota(override: Override)

  /** The size the upload would replace; a failed lookup reads as a first save. */
  function PrevSize(s: State, name: Name, lookupFails: bool): nat {
    if name in s.rows && !lookupFails then s.rows[name] else 0
  }

  predicate Enabled(s: State, e: Event) {
    match e
    case Begin(id, _) => id !in s.uploads
    case ReadUsage(id) => id in s.uploads && s.uploads[id].Capped?
    case ReadPrevious(id, _) => id in s.uploads && s.uploads[id].Measured?
    case StoreBlob(id, size) => id in s.uploads && s.uploads[id].Admitted? && size <= s.uploads[id].headroom
    case Record(id) => id in s.uploads && s.uploads[id].Written?
    case Fail(id) => id in s.uploads
    case DeleteRow(_) => true
    case ChangeQuota(_) => true
  }

  ghost function Apply(s: State, e: Event): State
    requires Enabled(s, e)
  {
    match e
    case Begin(id, name) => s.(uploads := s.uploads[id := Capped(name, s.Cap())])
    case ReadUsage(id) =>
      var u := s.uploads[id];
      s.(uploads := s.uploads[id := Measured(u.name, u.cap, Total(s.rows))])
    case ReadPrevious(id, lookupFails) =>
      var u := s.uploads[id];
      var headroom := u.cap - (u.used - PrevSize(s, u.name, lookupFails));
      if headroom <= 0 then s.(uploads := s.uploads - {id})
      else s.(uploads := s.uploads[id := Admitted(u.name, headroom)])
    case StoreBlob(id, size) => s.(uploads := s.uploads[id := Written(s.uploads[id].name, size)])
    case Record(id) =>
      var u := s.uploads[id];
      s.(rows := s.rows[u.name := u.size], uploads := s.uploads - {id})
    case Fail(id) => s.(uploads := s.uploads - {id})
    case DeleteRow(name) => s.(rows := s.rows - {name})
    case ChangeQuota(o) => s.(override := o)
  }

  /** A run: every event is enabled, at most `k` uploads are ever in flight and the cap in force is
      never above `cap`. */
  ghost predicate Run(s: State, es: seq<Event>, k: nat, cap: nat)
    decreases |es|
  {
    && |s.uploads| <= k && s.Cap() <= cap
    && (es != [] ==> Enabled(s, es[0]) && Run(Apply(s, es[0]), es[1..], k, cap))
  }

  ghost function Final(s: State, es: seq<Event>, k: nat, cap: nat): State
    requires Run(s, es, k, cap)
    decreases |es|
  {
    if es == [] then s else Final(Apply(s, es[0]), es[1..], k, cap)
  }

  /** The uploads of a name that are in flight. */
  function Rivals(s: State, name: Name): set<UploadId> { set id | id in s.uploads && s.uploads[id].name == name }

  /** At most m uploads of one name are ever in flight. */
  ghost predicate PerName(s: State, es: seq<Event>, k: nat, cap: nat, m: nat)
    requires Run(s, es, k, cap)
    decreases |es|
  {
    && (forall name :: |Rivals(s, name)| <= m)
    && (es != [] ==> PerName(Apply(s, es[0]), es[1..], k, cap, m))
  }

  function RowSize(s: State, name: Name): nat { if name in s.rows then s.rows[name] else 0 }

  /** Recording does not grow the row of a name that another upload stands between its two reads for. */
  predicate Steady(s: State, e: Event)
    requires Enabled(s, e)
  {
    e.Record? ==>
      var u := s.uploads[e.id];
      forall id :: id in s.uploads && s.uploads[id].Measured? && s.uploads[id].name == u.name ==> u.size <= RowSize(s, u.name)
  }

  ghost predicate SteadyRun(s: State, es: seq<Event>, k: nat, cap: nat)
    requires Run(s, es, k, cap)
    decreases |es|
  {
    es != [] ==> Steady(s, es[0]) && SteadyRun(Apply(s, es[0]), es[1..], k, cap)
  }

  predicate Fresh(s: State) { s.rows == map[] && s.uploads == map[] }

  // ---- The invariant: every set of measured uploads could finish without passing the bound. ----

  predicate Holds(u: Upload) { !u.Capped? }

  /** What an upload may still store: the headroom that its second read would give now, the headroom it
      was given, or the blob it has. */
  function Held(s: State, u: Upload): nat
    requires Holds(u)
  {
    match u
    case Measured(name, cap, used) => if cap + RowSize(s, name) > used then cap + RowSize(s, name) - used else 0
    case Admitted(_, headroom) => headroom
    case Written(_, size) => size
  }

  predicate Holders(s: State, f: set<UploadId>) {
    forall id :: id in f ==> id in s.uploads && Holds(s.uploads[id])
  }

  function Names(s: State, f: set<UploadId>): set<Name>
    requires Holders(s, f)
  {
    set id | id in f :: s.uploads[id].name
  }

  function Reserved(s: State, f: set<UploadId>): map<UploadId, nat>
    requires Holders(s, f)
  {
    map id | id in f :: Held(s, s.uploads[id])
  }

  /** What the user would store if exactly the uploads of `f` finished with all they may store. */
  ghost function Exposure(s: State, f: set<UploadId>): nat
    requires Holders(s, f)
  {
    Total(s.rows - Names(s, f)) + Total(Reserved(s, f))
  }

  /** No upload may store more than `cap`; a measured usage holds the row it was measured with. */
  ghost predicate CapsWithin(s: State, cap: nat) {
    forall id :: id in s.uploads ==>
      match s.uploads[id]
      case Capped(_, c) => c <= cap
      case Measured(name, c, used) => c <= cap && RowSize(s, name) <= used
      case _ => Held(s, s.uploads[id]) <= cap
  }

  ghost predicate Covered(s: State, bound: nat) {
    forall f :: Holders(s, f) ==> Exposure(s, f) <= bound
  }

  lemma CoversRows(s: State, bound: nat)
    requires Covered(s, bound)
    ensures Total(s.rows) <= bound
  {
    assert Exposure(s, {}) <= bound;
    assert s.rows - Names(s, {}) == s.rows;
  }

  lemma SubsetCard<T>(a: set<T>, b: set<T>)
    requires a <= b
    ensures |a| <= |b|
  {
    assert |b - a| == |b| - |a|;
  }

  lemma TotalAtMostCount<K(!new)>(m: map<K, nat>, count: nat, bound: nat)
    requires |m| <= count && forall k :: k in m ==> m[k] <= bound
    ensures Total(m) <= count * bound
  {
    TotalAtMost(m, bound);
    TimesMonotone(|m|, count, bound);
  }

  lemma TimesMonotone(a: nat, b: nat, c: nat)
    requires a <= b
    ensures a * c <= b * c
  {
    assert b * c == a * c + (b - a) * c;
  }

  /** With fewer rows, and no more for any upload of f to store, the exposure falls. */
  lemma ExposureFalls(s: State, t: State, f: set<UploadId>)
    requires Holders(s, f) && Holders(t, f) && Names(s, f) == Names(t, f)
    requires Total(t.rows - Names(t, f)) <= Total(s.rows - Names(s, f))
    requires forall id :: id in f ==> Held(t, t.uploads[id]) <= Held(s, s.uploads[id])
    ensures Exposure(t, f) <= Exposure(s, f)
  {
    TotalPointwise(Reserved(t, f), Reserved(s, f));
  }

  /** The usage just read holds the row of the upload's name, so it reserves at most its cap beside the
      rows of other names. */
  lemma MeasuredExposure(s: State, e: Event, k: nat, cap: nat, bound: nat, f: set<UploadId>)
    requires e.ReadUsage? && Enabled(s, e)
    requires |Apply(s, e).uploads| <= k && CapsWithin(s, cap) && Covered(s, bound) && k * cap <= bound && CapsWithin(Apply(s, e), cap)
    requires Holders(Apply(s, e), f) && e.id in f
    ensures Exposure(Apply(s, e), f) <= bound
  {
    var t, id, g := Apply(s, e), e.id, f - {e.id};
    var name := s.uploads[id].name;
    TotalSplit(Reserved(t, f), id);
    assert Reserved(t, f) - {id} == Reserved(t, g);
    if Held(t, t.uploads[id]) == 0 {
      SameUploads(s, t, g);
      WiderNames(t, f, g);
    } else {
      RoomBesideOthers(t, f, name);
      OthersReserve(t, f, id, k, cap);
    }
  }

  /** All rows but those of f's names, beside the row of one of these names. */
  lemma RoomBesideOthers(t: State, f: set<UploadId>, name: Name)
    requires Holders(t, f) && name in Names(t, f)
    ensures Total(t.rows - Names(t, f)) + RowSize(t, name) <= Total(t.rows)
  {
    TotalRemove(t.rows, name);
    TotalShrinks(t.rows - {name}, Names(t, f));
    assert t.rows - {name} - Names(t, f) == t.rows - Names(t, f);
  }

  lemma OthersReserve(t: State, f: set<UploadId>, id: UploadId, k: nat, cap: nat)
    requires Holders(t, f) && id in f && |t.uploads| <= k && CapsWithin(t, cap)
    ensures Total(Reserved(t, f - {id})) + cap <= k * cap
  {
    var others := Reserved(t, f - {id});
    assert others.Keys == f - {id} && |others| == |others.Keys| == |f| - 1;
    assert |f| <= k by { SubsetCard(f, t.uploads.Keys); }
    TotalAtMostCount(others, k - 1, cap);
    OneMoreTimes(k - 1, cap);
  }

  lemma WiderNames(t: State, f: set<UploadId>, g: set<UploadId>)
    requires Holders(t, f) && g <= f
    ensures Total(t.rows - Names(t, f)) <= Total(t.rows - Names(t, g))
  {
    TotalShrinks(t.rows - Names(t, g), Names(t, f));
    assert t.rows - Names(t, g) - Names(t, f) == t.rows - Names(t, f);
  }

  lemma SameUploads(s: State, t: State, f: set<UploadId>)
    requires s.rows == t.rows && Holders(t, f)
    requires forall id :: id in f ==> id in s.uploads && s.uploads[id] == t.uploads[id]
    ensures Holders(s, f) && Exposure(t, f) == Exposure(s, f)
  {
    assert Names(s, f) == Names(t, f) && Reserved(s, f) == Reserved(t, f);
  }

  lemma MeasureKeepsCovered(s: State, e: Event, k: nat, cap: nat, bound: nat)
    requires e.ReadUsage? && Enabled(s, e)
    requires |Apply(s, e).uploads| <= k && CapsWithin(s, cap) && Covered(s, bound) && k * cap <= bound
    ensures CapsWithin(Apply(s, e), cap) && Covered(Apply(s, e), bound)
  {
    var t := Apply(s, e);
    TotalRemove(s.rows, s.uploads[e.id].name);
    assert CapsWithin(t, cap);
    forall f | Holders(t, f) ensures Exposure(t, f) <= bound {
      if e.id in f { MeasuredExposure(s, e, k, cap, bound, f); } else { SameUploads(s, t, f); }
    }
  }

  /** An admitted upload may store what it might have before, or less when the lookup failed. */
  lemma AdmitKeepsCovered(s: State, e: Event, bound: nat, cap: nat)
    requires e.ReadPrevious? && Enabled(s, e) && CapsWithin(s, cap) && Covered(s, bound)
    ensures CapsWithin(Apply(s, e), cap) && Covered(Apply(s, e), bound)
  {
    var t := Apply(s, e);
    forall f | Holders(t, f) ensures Exposure(t, f) <= bound {
      assert Names(s, f) == Names(t, f);
      ExposureFalls(s, t, f);
    }
  }

  /** A stored blob is no larger than the headroom it was admitted with. */
  lemma StoreKeepsCovered(s: State, e: Event, bound: nat, cap: nat)
    requires e.StoreBlob? && Enabled(s, e) && CapsWithin(s, cap) && Covered(s, bound)
    ensures CapsWithin(Apply(s, e), cap) && Covered(Apply(s, e), bound)
  {
    var t := Apply(s, e);
    forall f | Holders(t, f) ensures Exposure(t, f) <= bound {
      assert Names(s, f) == Names(t, f);
      ExposureFalls(s, t, f);
    }
  }

  /** A recorded row whose name nobody in f holds counts as the upload's own reservation did. */
  lemma RecordedExposure(s: State, e: Event, f: set<UploadId>)
    requires e.Record? && Enabled(s, e) && Holders(s, f) && e.id !in f
    requires s.uploads[e.id].name !in Names(s, f)
    ensures Holders(s, f + {e.id})
    ensures Exposure(s, f + {e.id}) == Total(Apply(s, e).rows - Names(s, f)) + Total(Reserved(s, f))
  {
    var u, g := s.uploads[e.id], f + {e.id};
    assert Names(s, g) == Names(s, f) + {u.name};
    TotalInsert(s.rows - Names(s, f), u.name, u.size);
    assert Apply(s, e).rows - Names(s, f) == (s.rows - Names(s, f))[u.name := u.size];
    assert s.rows - Names(s, f) - {u.name} == s.rows - Names(s, g);
    TotalSplit(Reserved(s, g), e.id);
    assert Reserved(s, g) - {e.id} == Reserved(s, f);
  }

  /** Recording moves an upload's reservation into its row, and grows no reservation of that name. */
  lemma RecordKeepsCovered(s: State, e: Event, bound: nat, cap: nat)
    requires e.Record? && Enabled(s, e) && Steady(s, e) && CapsWithin(s, cap) && Covered(s, bound)
    ensures CapsWithin(Apply(s, e), cap) && Covered(Apply(s, e), bound)
  {
    var t := Apply(s, e);
    forall f | Holders(t, f) ensures Exposure(t, f) <= bound {
      ExposureAfterRecord(s, e, bound, f);
    }
  }

  lemma ExposureAfterRecord(s: State, e: Event, bound: nat, f: set<UploadId>)
    requires e.Record? && Enabled(s, e) && Steady(s, e) && Covered(s, bound) && Holders(Apply(s, e), f)
    ensures Exposure(Apply(s, e), f) <= bound
  {
    assert Holders(s, f);
    if s.uploads[e.id].name in Names(s, f) {
      RecordedBeside(s, e, f);
    } else {
      RecordedExposure(s, e, f);
      RecordedElsewhere(s, e, f);
      assert Exposure(s, f + {e.id}) <= bound;
    }
  }

  lemma RecordedElsewhere(s: State, e: Event, f: set<UploadId>)
    requires e.Record? && Enabled(s, e) && Holders(s, f) && Holders(Apply(s, e), f)
    requires s.uploads[e.id].name !in Names(s, f)
    ensures Names(Apply(s, e), f) == Names(s, f) && Reserved(Apply(s, e), f) == Reserved(s, f)
  {
    var t := Apply(s, e);
    assert Names(t, f) == Names(s, f);
    forall id | id in f ensures Reserved(t, f)[id] == Reserved(s, f)[id] {
      assert s.uploads[id].name in Names(s, f);
    }
  }

  /** A row recorded under a name that f holds does not count beside f. */
  lemma RecordedBeside(s: State, e: Event, f: set<UploadId>)
    requires e.Record? && Enabled(s, e) && Steady(s, e) && Holders(s, f) && Holders(Apply(s, e), f)
    requires s.uploads[e.id].name in Names(s, f)
    ensures Exposure(Apply(s, e), f) <= Exposure(s, f)
  {
    var t := Apply(s, e);
    assert Names(s, f) == Names(t, f) && t.rows - Names(t, f) == s.rows - Names(s, f);
    ExposureFalls(s, t, f);
  }

  lemma DeleteKeepsCovered(s: State, e: Event, bound: nat, cap: nat)
    requires e.DeleteRow? && CapsWithin(s, cap) && Covered(s, bound)
    ensures CapsWithin(Apply(s, e), cap) && Covered(Apply(s, e), bound)
  {
    var t := Apply(s, e);
    forall f | Holders(t, f) ensures Exposure(t, f) <= bound {
      assert Names(s, f) == Names(t, f);
      TotalShrinks(s.rows - Names(s, f), {e.name});
      assert s.rows - Names(s, f) - {e.name} == t.rows - Names(t, f);
      ExposureFalls(s, t, f);
    }
  }

  lemma OtherKeepsCovered(s: State, e: Event, bound: nat, cap: nat)
    requires e.Begin? || e.Fail? || e.ChangeQuota?
    requires Enabled(s, e) && s.Cap() <= cap && CapsWithin(s, cap) && Covered(s, bound)
    ensures CapsWithin(Apply(s, e), cap) && Covered(Apply(s, e), bound)
  {
    var t := Apply(s, e);
    forall f | Holders(t, f) ensures Exposure(t, f) <= bound {
      SameUploads(s, t, f);
    }
  }

  /** One step of any request keeps the invariant. */
  lemma StepKeepsCovered(s: State, e: Event, k: nat, cap: nat, bound: nat)
    requires Enabled(s, e) && Steady(s, e)
    requires |Apply(s, e).uploads| <= k && s.Cap() <= cap && k * cap <= bound
    requires CapsWithin(s, cap) && Covered(s, bound)
    ensures CapsWithin(Apply(s, e), cap)
    ensures Covered(Apply(s, e), bound)
  {
    if e.ReadUsage? { MeasureKeepsCovered(s, e, k, cap, bound); } else { LaterStepKeepsCovered(s, e, bound, cap); }
  }

  lemma LaterStepKeepsCovered(s: State, e: Event, bound: nat, cap: nat)
    requires !e.ReadUsage? && Enabled(s, e) && Steady(s, e)
    requires s.Cap() <= cap && CapsWithin(s, cap) && Covered(s, bound)
    ensures CapsWithin(Apply(s, e), cap) && Covered(Apply(s, e), bound)
  {
    if e.ReadPrevious? {
      AdmitKeepsCovered(s, e, bound, cap);
    } else if e.StoreBlob? {
      StoreKeepsCovered(s, e, bound, cap);
    } else if e.Record? {
      RecordKeepsCovered(s, e, bound, cap);
    } else if e.DeleteRow? {
      DeleteKeepsCovered(s, e, bound, cap);
    } else {
      OtherKeepsCovered(s, e, bound, cap);
    }
  }

  lemma {:induction false} RunKeepsCovered(s: State, es: seq<Event>, k: nat, cap: nat, bound: nat)
    requires Run(s, es, k, cap) && SteadyRun(s, es, k, cap)
    requires CapsWithin(s, cap) && Covered(s, bound) && k * cap <= bound
    ensures Covered(Final(s, es, k, cap), bound)
    decreases |es|
  {
    if es != [] {
      StepKeepsCovered(s, es[0], k, cap, bound);
      RunKeepsCovered(Apply(s, es[0]), es[1..], k, cap, bound);
    }
  }

  lemma FreshIsCovered(s: State, bound: nat, cap: nat)
    requires Fresh(s)
    ensures Covered(s, bound) && CapsWithin(s, cap)
  {
    forall f | Holders(s, f) ensures Exposure(s, f) <= bound {
      assert f == {} by { if id :| id in f { assert false; } }
      assert s.rows - Names(s, f) == map[] && Reserved(s, f) == map[];
    }
  }

  /** With at most k uploads in flight and no cap above `cap`, a user never stores more than k * cap
      bytes, whatever the interleaving and whatever fails, as long as no upload grows the row of a name
      that another one stands between its two reads for. */
  lemma QuotaHoldsUnderConcurrency(s: State, es: seq<Event>, k: nat, cap: nat)
    requires Fresh(s) && Run(s, es, k, cap) && SteadyRun(s, es, k, cap)
    ensures Total(Final(s, es, k, cap).rows) <= k * cap
  {
    FreshIsCovered(s, k * cap, cap);
    RunKeepsCovered(s, es, k, cap, k * cap);
    CoversRows(Final(s, es, k, cap), k * cap);
  }

  // ---- Uploads of different names need no assumption about their reads. ----

  lemma OneOfNameIsSteady(s: State, e: Event)
    requires Enabled(s, e) && forall name :: |Rivals(s, name)| <= 1
    ensures Steady(s, e)
  {
    if e.Record? {
      var name := s.uploads[e.id].name;
      forall id | id in s.uploads && s.uploads[id].Measured? && s.uploads[id].name == name ensures false {
        SubsetCard({id, e.id}, Rivals(s, name));
      }
    }
  }

  lemma {:induction false} OnePerNameIsSteady(s: State, es: seq<Event>, k: nat, cap: nat)
    requires Run(s, es, k, cap) && PerName(s, es, k, cap, 1)
    ensures SteadyRun(s, es, k, cap)
    decreases |es|
  {
    if es != [] {
      OneOfNameIsSteady(s, es[0]);
      OnePerNameIsSteady(Apply(s, es[0]), es[1..], k, cap);
    }
  }

  /** Never more uploads of a name than uploads. */
  lemma {:induction false} InFlightIsPerName(s: State, es: seq<Event>, k: nat, cap: nat, m: nat)
    requires Run(s, es, k, cap) && k <= m
    ensures PerName(s, es, k, cap, m)
    decreases |es|
  {
    forall name ensures |Rivals(s, name)| <= m { SubsetCard(Rivals(s, name), s.uploads.Keys); }
    if es != [] { InFlightIsPerName(Apply(s, es[0]), es[1..], k, cap, m); }
  }

  /** A user who uploads one artifact at a time never stores more than the largest cap in force. */
  lemma QuotaHoldsSequentially(s: State, es: seq<Event>, cap: nat)
    requires Fresh(s) && Run(s, es, 1, cap)
    ensures Total(Final(s, es, 1, cap).rows) <= cap
  {
    InFlightIsPerName(s, es, 1, cap, 1);
    OnePerNameIsSteady(s, es, 1, cap);
    QuotaHoldsUnderConcurrency(s, es, 1, cap);
  }

  lemma PrependRun(s: State, e: Event, rest: seq<Event>, k: nat, cap: nat)
    requires |s.uploads| <= k && s.Cap() <= cap && Enabled(s, e) && Run(Apply(s, e), rest, k, cap)
    ensures Run(s, [e] + rest, k, cap)
    ensures Final(s, [e] + rest, k, cap) == Final(Apply(s, e), rest, k, cap)
  {
    assert ([e] + rest)[1..] == rest;
  }

  /** An upload nobody interrupts is a run that leaves its row and nothing else. */
  lemma UninterruptedUpload(s: State, cap: nat, name: Name, lookupFails: bool, headroom: nat, size: nat) returns (es: seq<Event>)
    requires s.uploads == map[] && s.Cap() == cap
    requires 0 < headroom == cap - (Total(s.rows) - PrevSize(s, name, lookupFails)) && size <= headroom
    ensures Run(s, es, 1, cap) && Final(s, es, 1, cap) == s.(rows := s.rows[name := size])
  {
    var s1 := s.(uploads := map[0 := Capped(name, cap)]);
    var s2 := s.(uploads := map[0 := Measured(name, cap, Total(s.rows))]);
    var rest := UninterruptedWrite(s, cap, name, lookupFails, headroom, size);
    assert Apply(s1, ReadUsage(0)) == s2;
    PrependRun(s1, ReadUsage(0), rest, 1, cap);
    assert Apply(s, Begin(0, name)) == s1;
    PrependRun(s, Begin(0, name), [ReadUsage(0)] + rest, 1, cap);
    es := [Begin(0, name)] + ([ReadUsage(0)] + rest);
  }

  lemma UninterruptedAdmit(s: State, cap: nat, name: Name, lookupFails: bool, headroom: nat)
    requires 0 < headroom == cap - (Total(s.rows) - PrevSize(s, name, lookupFails))
    ensures var s2 := s.(uploads := map[0 := Measured(name, cap, Total(s.rows))]);
      Enabled(s2, ReadPrevious(0, lookupFails)) && Apply(s2, ReadPrevious(0, lookupFails)) == s.(uploads := map[0 := Admitted(name, headroom)])
  {
  }

  lemma UninterruptedWrite(s: State, cap: nat, name: Name, lookupFails: bool, headroom: nat, size: nat) returns (es: seq<Event>)
    requires s.uploads == map[] && s.Cap() == cap
    requires 0 < headroom == cap - (Total(s.rows) - PrevSize(s, name, lookupFails)) && size <= headroom
    ensures var s2 := s.(uploads := map[0 := Measured(name, cap, Total(s.rows))]);
      Run(s2, es, 1, cap) && Final(s2, es, 1, cap) == s.(rows := s.rows[name := size])
  {
    var s2 := s.(uploads := map[0 := Measured(name, cap, Total(s.rows))]);
    var s3 := s.(uploads := map[0 := Admitted(name, headroom)]);
    es := UninterruptedFinish(s, cap, name, headroom, size);
    UninterruptedAdmit(s, cap, name, lookupFails, headroom);
    PrependRun(s2, ReadPrevious(0, lookupFails), es, 1, cap);
    es := [ReadPrevious(0, lookupFails)] + es;
  }

  lemma UninterruptedFinish(s: State, cap: nat, name: Name, headroom: nat, size: nat) returns (es: seq<Event>)
    requires s.uploads == map[] && s.Cap() == cap && size <= headroom
    ensures var s3 := s.(uploads := map[0 := Admitted(name, headroom)]);
      Run(s3, es, 1, cap) && Final(s3, es, 1, cap) == s.(rows := s.rows[name := size])
  {
    var s3 := s.(uploads := map[0 := Admitted(name, headroom)]);
    var s4 := s.(uploads := map[0 := Written(name, size)]);
    assert Apply(s4, Record(0)) == s.(rows := s.rows[name := size]);
    PrependRun(s4, Record(0), [], 1, cap);
    assert Apply(s3, StoreBlob(0, size)) == s4;
    PrependRun(s3, StoreBlob(0, size), [Record(0)] + [], 1, cap);
    es := [StoreBlob(0, size)] + ([Record(0)] + []);
  }

  // ---- Two uploads of one name suffice to pass every bound. ----

  /** One round: a second upload of the same name measures the usage before the first is recorded,
      reads the previous size after it is recorded, and the row is then deleted. */
  function Round(n: Name, i: nat, cap: nat): seq<Event> {
    [Begin(i + 1, n), ReadUsage(i + 1), Record(i), ReadPrevious(i + 1, false),
     StoreBlob(i + 1, (i + 2) * cap), DeleteRow(n)]
  }

  /** Nothing is recorded, and upload `i` has written (i + 1) caps' worth. */
  ghost function Pending(n: Name, i: nat, cap: nat): State {
    State(map[], NoOverride, cap, map[i := Written(n, (i + 1) * cap)])
  }

  lemma RoundGrows(n: Name, i: nat, cap: nat, rest: seq<Event>)
    requires cap > 0 && Run(Pending(n, i + 1, cap), rest, 2, cap)
    ensures Run(Pending(n, i, cap), Round(n, i, cap) + rest, 2, cap)
    ensures Final(Pending(n, i, cap), Round(n, i, cap) + rest, 2, cap) == Final(Pending(n, i + 1, cap), rest, 2, cap)
  {
    var r := Round(n, i, cap);
    assert r + rest == r[..3] + (r[3..] + rest);
    RoundSecondHalf(n, i, cap, rest);
    RoundFirstHalf(n, i, cap, r[3..] + rest);
  }

  /** The row holds (i + 1) caps' worth and the next upload has measured an empty store. */
  ghost function Straddling(n: Name, i: nat, cap: nat): State {
    State(map[n := (i + 1) * cap], NoOverride, cap, map[i + 1 := Measured(n, cap, 0)])
  }

  lemma RoundFirstHalf(n: Name, i: nat, cap: nat, rest: seq<Event>)
    requires cap > 0 && Run(Straddling(n, i, cap), rest, 2, cap)
    ensures Run(Pending(n, i, cap), Round(n, i, cap)[..3] + rest, 2, cap)
    ensures Final(Pending(n, i, cap), Round(n, i, cap)[..3] + rest, 2, cap) == Final(Straddling(n, i, cap), rest, 2, cap)
  {
    var s0 := Pending(n, i, cap);
    var s1 := Apply(s0, Begin(i + 1, n));
    var s2 := Apply(s1, ReadUsage(i + 1));
    assert s2.uploads[i + 1] == Measured(n, cap, 0);
    assert Apply(s2, Record(i)) == Straddling(n, i, cap);
    var tail := [Record(i)] + rest;
    PrependRun(s2, Record(i), rest, 2, cap);
    PrependRun(s1, ReadUsage(i + 1), tail, 2, cap);
    PrependRun(s0, Begin(i + 1, n), [ReadUsage(i + 1)] + tail, 2, cap);
    assert Round(n, i, cap)[..3] + rest == [Begin(i + 1, n)] + ([ReadUsage(i + 1)] + tail);
  }

  lemma RoundSecondHalf(n: Name, i: nat, cap: nat, rest: seq<Event>)
    requires cap > 0 && Run(Pending(n, i + 1, cap), rest, 2, cap)
    ensures Run(Straddling(n, i, cap), Round(n, i, cap)[3..] + rest, 2, cap)
    ensures Final(Straddling(n, i, cap), Round(n, i, cap)[3..] + rest, 2, cap) == Final(Pending(n, i + 1, cap), rest, 2, cap)
  {
    var s3 := Straddling(n, i, cap);
    var grown := (i + 2) * cap;
    assert cap - (0 - (i + 1) * cap) == grown > 0;
    var s4 := Apply(s3, ReadPrevious(i + 1, false));
    assert s4.uploads == map[i + 1 := Admitted(n, grown)];
    var s5 := Apply(s4, StoreBlob(i + 1, grown));
    assert s5.uploads == map[i + 1 := Written(n, grown)];
    assert Apply(s5, DeleteRow(n)) == Pending(n, i + 1, cap);
    var tail := [DeleteRow(n)] + rest;
    PrependRun(s5, DeleteRow(n), rest, 2, cap);
    PrependRun(s4, StoreBlob(i + 1, grown), tail, 2, cap);
    PrependRun(s3, ReadPrevious(i + 1, false), [StoreBlob(i + 1, grown)] + tail, 2, cap);
    assert Round(n, i, cap)[3..] + rest == [ReadPrevious(i + 1, false)] + ([StoreBlob(i + 1, grown)] + tail);
  }

  lemma {:induction false} Escalation(n: Name, i: nat, rounds: nat, cap: nat) returns (es: seq<Event>)
    requires cap > 0
    ensures Run(Pending(n, i, cap), es, 2, cap)
    ensures Total(Final(Pending(n, i, cap), es, 2, cap).rows) == (i + rounds + 1) * cap
    decreases rounds
  {
    if rounds == 0 {
      es := [Record(i)];
      var t := Apply(Pending(n, i, cap), es[0]);
      assert t.rows == map[n := (i + 1) * cap];
      TotalSplit(t.rows, n);
    } else {
      var rest := Escalation(n, i + 1, rounds - 1, cap);
      RoundGrows(n, i, cap, rest);
      es := Round(n, i, cap) + rest;
    }
  }

  /** The two separate reads are not enough for any bound: with one fixed cap, never more than two
      uploads in flight and no failure at all, the stored total reaches every multiple of the cap. */
  lemma NoBoundForOneName(n: Name, cap: nat, multiple: nat) returns (s: State, es: seq<Event>)
    requires cap > 0 && multiple > 0
    ensures Fresh(s) && Run(s, es, 2, cap)
    ensures Total(Final(s, es, 2, cap).rows) == multiple * cap
  {
    var rest := Escalation(n, 0, multiple - 1, cap);
    var last := FirstUpload(n, cap, rest);
    s := State(map[], NoOverride, cap, map[]);
    var s1 := Apply(s, Begin(0, n));
    var s2 := Apply(s1, ReadUsage(0));
    assert s2.uploads == map[0 := Measured(n, cap, 0)];
    PrependRun(s1, ReadUsage(0), last, 2, cap);
    PrependRun(s, Begin(0, n), [ReadUsage(0)] + last, 2, cap);
    es := [Begin(0, n)] + ([ReadUsage(0)] + last);
  }

  lemma FirstUpload(n: Name, cap: nat, rest: seq<Event>) returns (es: seq<Event>)
    requires cap > 0 && Run(Pending(n, 0, cap), rest, 2, cap)
    ensures var s2 := State(map[], NoOverride, cap, map[0 := Measured(n, cap, 0)]);
      Run(s2, es, 2, cap) && Final(s2, es, 2, cap) == Final(Pending(n, 0, cap), rest, 2, cap)
  {
    var s2 := State(map[], NoOverride, cap, map[0 := Measured(n, cap, 0)]);
    var s3 := Apply(s2, ReadPrevious(0, false));
    assert s3.uploads == map[0 := Admitted(n, cap)];
    assert Apply(s3, StoreBlob(0, cap)) == Pending(n, 0, cap);
    PrependRun(s3, StoreBlob(0, cap), rest, 2, cap);
    PrependRun(s2, ReadPrevious(0, false), [StoreBlob(0, cap)] + rest, 2, cap);
    es := [ReadPrevious(0, false)] + ([StoreBlob(0, cap)] + rest);
  }

  // ---- Exactly when k caps are a bound. ----

  /** Whatever runs with at most k uploads in flight, at most m of them of one name, and no cap above
      `cap`: the user stores at most k * cap bytes. */
  ghost predicate BoundHolds(k: nat, m: nat, cap: nat) {
    forall s: State, es: seq<Event> :: Fresh(s) && Run(s, es, k, cap) && PerName(s, es, k, cap, m) ==>
      Total(Final(s, es, k, cap).rows) <= k * cap
  }

  lemma {:induction false} FewerPerName(s: State, es: seq<Event>, k: nat, cap: nat, m: nat, n: nat)
    requires Run(s, es, k, cap) && PerName(s, es, k, cap, m) && m <= n
    ensures PerName(s, es, k, cap, n)
    decreases |es|
  {
    if es != [] { FewerPerName(Apply(s, es[0]), es[1..], k, cap, m, n); }
  }

  lemma {:induction false} MoreInFlight(s: State, es: seq<Event>, k: nat, n: nat, cap: nat)
    requires Run(s, es, k, cap) && k <= n
    ensures Run(s, es, n, cap) && Final(s, es, n, cap) == Final(s, es, k, cap)
    decreases |es|
  {
    if es != [] { MoreInFlight(Apply(s, es[0]), es[1..], k, n, cap); }
  }

  /** With a cap of nothing no upload is ever admitted. */
  predicate Nothing(s: State) {
    s.rows == map[] && forall id :: id in s.uploads ==> (s.uploads[id].Capped? || s.uploads[id].Measured?) && s.uploads[id].cap == 0
  }

  lemma {:induction false} NothingIsStored(s: State, es: seq<Event>, k: nat)
    requires Nothing(s) && Run(s, es, k, 0)
    ensures Final(s, es, k, 0).rows == map[]
    decreases |es|
  {
    if es != [] {
      assert Nothing(Apply(s, es[0]));
      NothingIsStored(Apply(s, es[0]), es[1..], k);
    }
  }

  lemma OnePerNameHolds(k: nat, m: nat, cap: nat)
    requires k <= 1 || m <= 1 || cap == 0
    ensures BoundHolds(k, m, cap)
  {
    forall s: State, es: seq<Event> | Fresh(s) && Run(s, es, k, cap) && PerName(s, es, k, cap, m)
      ensures Total(Final(s, es, k, cap).rows) <= k * cap
    {
      if cap == 0 {
        NothingIsStored(s, es, k);
      } else {
        if m <= 1 { FewerPerName(s, es, k, cap, m, 1); } else { InFlightIsPerName(s, es, k, cap, 1); }
        OnePerNameIsSteady(s, es, k, cap);
        QuotaHoldsUnderConcurrency(s, es, k, cap);
      }
    }
  }

  /** k caps are a bound exactly when there is nothing to store, uploads go one at a time, or no two
      uploads in flight are of one name. */
  lemma QuotaHoldsExactly(k: nat, m: nat, cap: nat)
    ensures BoundHolds(k, m, cap) <==> k <= 1 || m <= 1 || cap == 0
  {
    if k <= 1 || m <= 1 || cap == 0 {
      OnePerNameHolds(k, m, cap);
    } else {
      var s, es := NoBoundForOneName("a", cap, k + 1);
      MoreInFlight(s, es, 2, k, cap);
      PerNameOfMore(s, es, k, m, cap);
      assert (k + 1) * cap == k * cap + cap;
    }
  }

  lemma {:induction false} PerNameOfMore(s: State, es: seq<Event>, k: nat, m: nat, cap: nat)
    requires Run(s, es, 2, cap) && Run(s, es, k, cap) && 2 <= m
    ensures PerName(s, es, k, cap, m)
    decreases |es|
  {
    forall name ensures |Rivals(s, name)| <= m { SubsetCard(Rivals(s, name), s.uploads.Keys); }
    if es != [] { PerNameOfMore(Apply(s, es[0]), es[1..], k, m, cap); }
  }
}
