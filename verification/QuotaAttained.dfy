/** The bound on concurrent uploads cannot be improved: a run that attains it. */
module QuotaAttained {
  import opened Totals
  import opened QuotaBound

  /** A different name for every upload. */
  function NameOf(i: nat): Name { seq(i, _ => 'x') }

  function Rows(n: nat, cap: nat): map<Name, nat> { if n == 0 then map[] else Rows(n - 1, cap)[NameOf(n - 1) := cap] }

  /** Uploads from `first` up to `last` have their blobs stored, those before have their rows. */
  ghost function Halfway(first: nat, last: nat, cap: nat): State {
    State(Rows(first, cap), NoOverride, cap, map i: nat | first <= i < last :: Written(NameOf(i), cap))
  }

  lemma InFlight(first: nat, last: nat, cap: nat)
    requires first <= last
    ensures |Halfway(first, last, cap).uploads| == last - first
    decreases last - first
  {
    var u := Halfway(first, last, cap).uploads;
    if first < last {
      var later := Halfway(first + 1, last, cap).uploads;
      InFlight(first + 1, last, cap);
      assert u.Keys == later.Keys + {first} && first !in later.Keys;
      assert |u| == |u.Keys| == |later.Keys| + 1;
    } else {
      assert u == map[];
    }
  }

  lemma {:induction false} RowsAreShort(n: nat, cap: nat, name: Name)
    requires name in Rows(n, cap)
    ensures |name| < n
  {
    if n > 0 && name != NameOf(n - 1) { RowsAreShort(n - 1, cap, name); }
  }

  lemma {:induction false} RowsTotal(n: nat, cap: nat)
    ensures Total(Rows(n, cap)) == n * cap
  {
    if n > 0 {
      RowsTotal(n - 1, cap);
      var before, name := Rows(n - 1, cap), NameOf(n - 1);
      assert name !in before by { if name in before { RowsAreShort(n - 1, cap, name); } }
      assert before - {name} == before;
      TotalInsert(before, name, cap);
      OneMore(n, cap);
    }
  }

  lemma OneMore(n: nat, cap: nat)
    requires n > 0
    ensures (n - 1) * cap + cap == n * cap
  {
  }

  /** No two uploads in flight are of one name. */
  predicate Apart(s: State) {
    forall a, b :: a in s.uploads && b in s.uploads && s.uploads[a].name == s.uploads[b].name ==> a == b
  }

  lemma ApartIsOnePerName(s: State, name: Name)
    requires Apart(s)
    ensures |Rivals(s, name)| <= 1
  {
    var ids := Rivals(s, name);
    if a :| a in ids { assert ids == {a}; }
  }

  lemma HalfwayApart(first: nat, last: nat, cap: nat)
    ensures Apart(Halfway(first, last, cap))
  {
    var s := Halfway(first, last, cap);
    forall a, b | a in s.uploads && b in s.uploads && s.uploads[a].name == s.uploads[b].name ensures a == b {
      assert |NameOf(a)| == a && |NameOf(b)| == b;
    }
  }

  lemma EmptyRun(s: State, k: nat, cap: nat)
    requires |s.uploads| <= k && s.Cap() <= cap && Apart(s)
    ensures Run(s, [], k, cap) && PerName(s, [], k, cap, 1) && Final(s, [], k, cap) == s
  {
    forall name ensures |Rivals(s, name)| <= 1 { ApartIsOnePerName(s, name); }
  }

  lemma PrependApart(s: State, e: Event, rest: seq<Event>, k: nat, cap: nat)
    requires |s.uploads| <= k && s.Cap() <= cap && Enabled(s, e) && Apart(s)
    requires Run(Apply(s, e), rest, k, cap) && PerName(Apply(s, e), rest, k, cap, 1)
    ensures Run(s, [e] + rest, k, cap) && PerName(s, [e] + rest, k, cap, 1)
    ensures Final(s, [e] + rest, k, cap) == Final(Apply(s, e), rest, k, cap)
  {
    assert ([e] + rest)[1..] == rest;
    forall name ensures |Rivals(s, name)| <= 1 { ApartIsOnePerName(s, name); }
  }

  lemma RecordStep(first: nat, k: nat, cap: nat)
    requires first < k
    ensures var s := Halfway(first, k, cap);
      Enabled(s, Record(first)) && Apply(s, Record(first)) == Halfway(first + 1, k, cap)
  {
    var s := Halfway(first, k, cap);
    assert s.uploads - {first} == Halfway(first + 1, k, cap).uploads;
  }

  lemma RecordFirst(first: nat, k: nat, cap: nat, rest: seq<Event>) returns (es: seq<Event>)
    requires first < k
    requires Run(Halfway(first + 1, k, cap), rest, k, cap) && PerName(Halfway(first + 1, k, cap), rest, k, cap, 1)
    ensures Run(Halfway(first, k, cap), es, k, cap) && PerName(Halfway(first, k, cap), es, k, cap, 1)
    ensures Final(Halfway(first, k, cap), es, k, cap) == Final(Halfway(first + 1, k, cap), rest, k, cap)
  {
    InFlight(first, k, cap);
    HalfwayApart(first, k, cap);
    RecordStep(first, k, cap);
    PrependApart(Halfway(first, k, cap), Record(first), rest, k, cap);
    es := [Record(first)] + rest;
  }

  lemma {:induction false} RecordAll(first: nat, k: nat, cap: nat) returns (es: seq<Event>)
    requires first <= k
    ensures Run(Halfway(first, k, cap), es, k, cap) && PerName(Halfway(first, k, cap), es, k, cap, 1)
    ensures Final(Halfway(first, k, cap), es, k, cap).rows == Rows(k, cap)
    decreases k - first
  {
    if first == k {
      es := [];
      InFlight(k, k, cap);
      HalfwayApart(k, k, cap);
      EmptyRun(Halfway(k, k, cap), k, cap);
    } else {
      var rest := RecordAll(first + 1, k, cap);
      es := RecordFirst(first, k, cap, rest);
    }
  }

  /** The same with upload i on its way. */
  ghost function Launching(i: nat, cap: nat, u: Upload): State {
    var s := Halfway(0, i, cap);
    s.(uploads := s.uploads[i := u])
  }

  lemma LaunchingSize(i: nat, cap: nat, u: Upload)
    requires u.name == NameOf(i)
    ensures |Launching(i, cap, u).uploads| == i + 1 && |Halfway(0, i, cap).uploads| == i && Halfway(0, i, cap).rows == map[]
    ensures Apart(Launching(i, cap, u)) && Apart(Halfway(0, i, cap))
  {
    LaunchingApart(i, cap, u);
    InFlight(0, i, cap);
    var all := Launching(i, cap, u).uploads;
    assert all.Keys == Halfway(0, i, cap).uploads.Keys + {i} && |all.Keys| == |all|;
  }

  lemma LaunchingApart(i: nat, cap: nat, u: Upload)
    requires u.name == NameOf(i)
    ensures Apart(Launching(i, cap, u)) && Apart(Halfway(0, i, cap))
  {
    HalfwayApart(0, i, cap);
    var s := Launching(i, cap, u);
    forall a, b | a in s.uploads && b in s.uploads && s.uploads[a].name == s.uploads[b].name ensures a == b {
      assert |NameOf(a)| == a && |NameOf(b)| == b;
    }
  }

  lemma LaunchSteps(i: nat, cap: nat)
    requires cap > 0
    ensures var s, n := Halfway(0, i, cap), NameOf(i);
      var s1, s2, s3 := Launching(i, cap, Capped(n, cap)), Launching(i, cap, Measured(n, cap, 0)), Launching(i, cap, Admitted(n, cap));
      && Enabled(s, Begin(i, n)) && Apply(s, Begin(i, n)) == s1
      && Enabled(s1, ReadUsage(i)) && Apply(s1, ReadUsage(i)) == s2
      && Enabled(s2, ReadPrevious(i, false)) && Apply(s2, ReadPrevious(i, false)) == s3
      && Enabled(s3, StoreBlob(i, cap)) && Apply(s3, StoreBlob(i, cap)) == Halfway(0, i + 1, cap)
  {
    var s, n := Halfway(0, i, cap), NameOf(i);
    assert s.rows == map[] && s.rows - {n} == map[];
    assert Halfway(0, i + 1, cap).uploads == s.uploads[i := Written(n, cap)];
  }

  /** One upload of the i-th name, up to its stored blob. */
  lemma Launch(i: nat, k: nat, cap: nat, rest: seq<Event>) returns (es: seq<Event>)
    requires i < k && cap > 0
    requires Run(Halfway(0, i + 1, cap), rest, k, cap) && PerName(Halfway(0, i + 1, cap), rest, k, cap, 1)
    ensures Run(Halfway(0, i, cap), es, k, cap) && PerName(Halfway(0, i, cap), es, k, cap, 1)
    ensures Final(Halfway(0, i, cap), es, k, cap) == Final(Halfway(0, i + 1, cap), rest, k, cap)
  {
    var n := NameOf(i);
    LaunchSteps(i, cap);
    LaunchingSize(i, cap, Admitted(n, cap));
    PrependApart(Launching(i, cap, Admitted(n, cap)), StoreBlob(i, cap), rest, k, cap);
    es := [StoreBlob(i, cap)] + rest;
    LaunchingSize(i, cap, Measured(n, cap, 0));
    PrependApart(Launching(i, cap, Measured(n, cap, 0)), ReadPrevious(i, false), es, k, cap);
    es := [ReadPrevious(i, false)] + es;
    LaunchingSize(i, cap, Capped(n, cap));
    PrependApart(Launching(i, cap, Capped(n, cap)), ReadUsage(i), es, k, cap);
    es := [ReadUsage(i)] + es;
    PrependApart(Halfway(0, i, cap), Begin(i, n), es, k, cap);
    es := [Begin(i, n)] + es;
  }

  lemma {:induction false} LaunchAll(i: nat, k: nat, cap: nat) returns (es: seq<Event>)
    requires i <= k && cap > 0
    ensures Run(Halfway(0, i, cap), es, k, cap) && PerName(Halfway(0, i, cap), es, k, cap, 1)
    ensures Final(Halfway(0, i, cap), es, k, cap).rows == Rows(k, cap)
    decreases k - i
  {
    if i == k {
      es := RecordAll(0, k, cap);
    } else {
      var rest := LaunchAll(i + 1, k, cap);
      es := Launch(i, k, cap, rest);
    }
  }

  /** No smaller bound holds, even for uploads of different names: k of them, each measured before any is
      recorded, store exactly k caps. */
  lemma BoundIsAttained(k: nat, cap: nat) returns (s: State, es: seq<Event>)
    requires cap > 0
    ensures Fresh(s) && Run(s, es, k, cap) && PerName(s, es, k, cap, 1)
    ensures Total(Final(s, es, k, cap).rows) == k * cap
  {
    s := Halfway(0, 0, cap);
    assert s.uploads == map[] && s.rows == map[];
    es := LaunchAll(0, k, cap);
    RowsTotal(k, cap);
  }
}
