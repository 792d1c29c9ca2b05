/** Registry retention: which versions of each image are deleted. */
module Retention {
  import opened Text

  /** One version of an image; times are in nanoseconds. */
  datatype Version = Version(kind: string, name: string, version: string, createdAt: int)

  /** The flags, and the moment of the run.  No age limit applies when maxAge is not positive. */
  datatype Rules = Rules(keep: int, keepMin: int, maxAge: int, now: int, protected: set<string>)

  /** What the flags are checked for before anything is planned. */
  predicate Consistent(r: Rules) { 1 <= r.keepMin <= r.keep }

  // ---- Newest first. ----

  datatype Key = Key(createdAt: int, version: string)

  function KeyOf(v: Version): Key { Key(v.createdAt, v.version) }

  /** The order of the list: later first, then the greater version string. */
  predicate Before(a: Key, b: Key) {
    if a.createdAt != b.createdAt then a.createdAt > b.createdAt else !AtMost(a.version, b.version)
  }

  /** Keys are never before one another, and different keys never tie. */
  lemma KeysDecided(a: Key, b: Key)
    ensures !(Before(a, b) && Before(b, a))
    ensures !Before(a, b) && !Before(b, a) ==> a == b
  {
    AtMostTotal(a.version, b.version);
    if AtMost(a.version, b.version) && AtMost(b.version, a.version) { AtMostAntisymmetric(a.version, b.version); }
  }

  lemma NotAfterTransitive(a: Key, b: Key, c: Key)
    requires !Before(b, a) && !Before(c, b)
    ensures !Before(c, a)
  {
    if a.createdAt == b.createdAt == c.createdAt { AtMostTransitive(c.version, b.version, a.version); }
  }

  function KeysOf(s: seq<Version>): seq<Key> { seq(|s|, i requires 0 <= i < |s| => KeyOf(s[i])) }

  predicate Ordered(keys: seq<Key>) { forall i, j :: 0 <= i < j < |keys| ==> !Before(keys[j], keys[i]) }

  predicate NewestFirst(s: seq<Version>) { Ordered(KeysOf(s)) }

  /** Sorting with the comparison above; among equal keys any order may come out. */
  method SortNewestFirst(vs: seq<Version>) returns (s: seq<Version>)
    ensures NewestFirst(s) && multiset(s) == multiset(vs)
  {
    s := [];
    for i := 0 to |vs|
      invariant NewestFirst(s) && multiset(s) == multiset(vs[..i])
    {
      var v := vs[i];
      assert vs[..i + 1] == vs[..i] + [v];
      var k := |s|;
      while k > 0 && Before(KeyOf(v), KeyOf(s[k - 1]))
        invariant 0 <= k <= |s| && forall j :: k <= j < |s| ==> Before(KeyOf(v), KeysOf(s)[j])
      {
        k := k - 1;
      }
      InsertKeepsOrder(s, v, k);
      assert s == s[..k] + s[k..];
      s := s[..k] + [v] + s[k..];
    }
    assert vs[..|vs|] == vs;
  }

  lemma InsertKeepsOrder(s: seq<Version>, v: Version, k: nat)
    requires k <= |s| && NewestFirst(s)
    requires forall j :: k <= j < |s| ==> Before(KeyOf(v), KeysOf(s)[j])
    requires k > 0 ==> !Before(KeyOf(v), KeysOf(s)[k - 1])
    ensures NewestFirst(s[..k] + [v] + s[k..])
  {
    var t := s[..k] + [v] + s[k..];
    var keys, before := KeysOf(t), KeysOf(s);
    forall i, j | 0 <= i < j < |t| ensures !Before(keys[j], keys[i]) {
      if j == k {
        if i < k - 1 { NotAfterTransitive(before[i], before[k - 1], KeyOf(v)); }
      } else if i == k {
        KeysDecided(keys[i], keys[j]);
        assert keys[j] == before[j - 1];
      } else {
        assert keys[j] == before[if j < k then j else j - 1] && keys[i] == before[if i < k then i else i - 1];
      }
    }
  }

  lemma WithoutHead<T>(a: seq<T>)
    requires a != []
    ensures multiset(a[1..]) == multiset(a) - multiset{a[0]} && a[0] in multiset(a)
  {
    assert a == [a[0]] + a[1..];
  }

  lemma SameHead(a: seq<Key>, b: seq<Key>)
    requires Ordered(a) && Ordered(b) && a != [] && b != [] && a[0] in b && b[0] in a
    ensures a[0] == b[0]
  {
    var i :| 0 <= i < |a| && a[i] == b[0];
    var j :| 0 <= j < |b| && b[j] == a[0];
    KeysDecided(a[0], b[0]);
  }

  lemma {:induction false} OrderedUnique(a: seq<Key>, b: seq<Key>)
    requires Ordered(a) && Ordered(b) && multiset(a) == multiset(b)
    ensures a == b
  {
    assert |multiset(a)| == |a| && |multiset(b)| == |b|;
    if a != [] {
      WithoutHead(a);
      WithoutHead(b);
      SameHead(a, b);
      OrderedUnique(a[1..], b[1..]);
      assert a == [a[0]] + a[1..] && b == [b[0]] + b[1..];
    }
  }

  lemma KeysOfJoined(a: seq<Version>, b: seq<Version>)
    ensures KeysOf(a + b) == KeysOf(a) + KeysOf(b)
  {
  }

  lemma Inserted<T>(a: seq<T>, x: T, b: seq<T>)
    ensures multiset(a + [x] + b) == multiset(a + b) + multiset{x}
  {
  }

  function Without(s: seq<Version>, i: nat): seq<Version>
    requires i < |s|
  {
    s[..i] + s[i + 1..]
  }

  lemma Pulled(s: seq<Version>, i: nat)
    requires i < |s|
    ensures multiset(s) == multiset(Without(s, i)) + multiset{s[i]}
    ensures multiset(KeysOf(s)) == multiset(KeysOf(Without(s, i))) + multiset{KeyOf(s[i])}
  {
    var a, b := s[..i], s[i + 1..];
    assert s == a + [s[i]] + b;
    Inserted(a, s[i], b);
    KeysOfJoined(a + [s[i]], b);
    KeysOfJoined(a, [s[i]]);
    KeysOfJoined(a, b);
    assert KeysOf([s[i]]) == [KeyOf(s[i])];
    Inserted(KeysOf(a), KeyOf(s[i]), KeysOf(b));
  }

  lemma Cancel<T>(a: multiset<T>, b: multiset<T>, x: T)
    requires a + multiset{x} == b + multiset{x}
    ensures a == b
  {
    assert a == a + multiset{x} - multiset{x} && b == b + multiset{x} - multiset{x};
  }

  lemma {:induction false} KeysFollow(s: seq<Version>, t: seq<Version>)
    requires multiset(s) == multiset(t)
    ensures multiset(KeysOf(s)) == multiset(KeysOf(t))
    decreases |s|
  {
    assert |multiset(s)| == |s| && |multiset(t)| == |t|;
    if s != [] {
      assert s[0] in multiset(s) && s[0] in multiset(t);
      var j :| 0 <= j < |t| && t[j] == s[0];
      Pulled(s, 0);
      Pulled(t, j);
      Cancel(multiset(Without(s, 0)), multiset(Without(t, j)), s[0]);
      KeysFollow(Without(s, 0), Without(t, j));
    }
  }

  /** Two newest-first lists of the same versions agree on time and version string everywhere. */
  lemma SameKeys(s: seq<Version>, t: seq<Version>)
    requires NewestFirst(s) && NewestFirst(t) && multiset(s) == multiset(t)
    ensures KeysOf(s) == KeysOf(t)
  {
    KeysFollow(s, t);
    OrderedUnique(KeysOf(s), KeysOf(t));
  }

  // ---- What goes. ----

  const MAX_DURATION := 0x7FFF_FFFF_FFFF_FFFF

  /** The difference of two times, held within the range of a duration. */
  function Since(now: int, created: int): int {
    var d := now - created;
    if d > MAX_DURATION then MAX_DURATION else if d < -MAX_DURATION - 1 then -MAX_DURATION - 1 else d
  }

  predicate TooOld(r: Rules, createdAt: int) { r.maxAge > 0 && Since(r.now, createdAt) > r.maxAge }

  predicate Goes(r: Rules, i: int, createdAt: int) { i >= r.keep || (i >= r.keepMin && TooOld(r, createdAt)) }

  /** The versions of an ordered list that go. */
  function Doomed(s: seq<Version>, r: Rules): seq<Version> {
    if s == [] then []
    else
      var n := |s| - 1;
      Doomed(s[..n], r) + if Goes(r, n, s[n].createdAt) then [s[n]] else []
  }

  /** `doomed` is the plan for the versions of one image, whatever way ties were sorted. */
  ghost predicate Planned(vs: seq<Version>, r: Rules, doomed: seq<Version>) {
    exists s :: NewestFirst(s) && multiset(s) == multiset(vs) && doomed == Doomed(s, r)
  }

  /** The versions of an image that may go at all. */
  function Candidates(versions: seq<Version>, name: string, r: Rules): seq<Version> {
    if versions == [] then []
    else
      var v := versions[|versions| - 1];
      Candidates(versions[..|versions| - 1], name, r) + if v.name == name && v.version !in r.protected then [v] else []
  }

  function PlanAt(plan: map<string, seq<Version>>, name: string): seq<Version> { if name in plan then plan[name] else [] }

  ghost predicate PlanFor(versions: seq<Version>, r: Rules, plan: map<string, seq<Version>>) {
    && (forall name :: Planned(Candidates(versions, name, r), r, PlanAt(plan, name)))
    && (forall name :: name in plan ==> plan[name] != [])
  }

  method Group(versions: seq<Version>, r: Rules) returns (byName: map<string, seq<Version>>)
    ensures forall name :: PlanAt(byName, name) == Candidates(versions, name, r)
  {
    byName := map[];
    for i := 0 to |versions|
      invariant forall name :: PlanAt(byName, name) == Candidates(versions[..i], name, r)
    {
      var v := versions[i];
      assert versions[..i + 1][..i] == versions[..i];
      if v.version !in r.protected {
        byName := byName[v.name := PlanAt(byName, v.name) + [v]];
      }
    }
    assert versions[..|versions|] == versions;
  }

  method Select(s: seq<Version>, r: Rules) returns (doomed: seq<Version>)
    ensures doomed == Doomed(s, r)
  {
    doomed := [];
    for i := 0 to |s|
      invariant doomed == Doomed(s[..i], r)
    {
      assert s[..i + 1][..i] == s[..i];
      var tooMany := i >= r.keep;
      var tooOld := r.maxAge > 0 && i >= r.keepMin && Since(r.now, s[i].createdAt) > r.maxAge;
      if tooMany || tooOld {
        doomed := doomed + [s[i]];
      }
    }
    assert s[..|s|] == s;
  }

  lemma NothingPlanned(r: Rules)
    ensures Planned([], r, [])
  {
    var none: seq<Version> := [];
    assert NewestFirst(none) && multiset(none) == multiset([]) && Doomed(none, r) == [];
  }

  method Prunable(versions: seq<Version>, r: Rules) returns (plan: map<string, seq<Version>>)
    ensures PlanFor(versions, r, plan)
  {
    var byName := Group(versions, r);
    plan := map[];
    NothingPlanned(r);
    var names := byName.Keys;
    while names != {}
      invariant names <= byName.Keys
      invariant forall name :: name in plan ==> name in byName && name !in names && plan[name] != []
      invariant forall name :: name !in names ==> Planned(PlanAt(byName, name), r, PlanAt(plan, name))
      decreases names
    {
      var name :| name in names;
      names := names - {name};
      var s := SortNewestFirst(byName[name]);
      var doomed := Select(s, r);
      assert Planned(byName[name], r, doomed);
      if |doomed| > 0 {
        plan := plan[name := doomed];
      }
    }
  }

  // ---- What a plan promises. ----

  function Min(a: int, b: int): int { if a < b then a else b }

  lemma OlderGoes(s: seq<Version>, r: Rules, i: nat, j: nat)
    requires NewestFirst(s) && i < j < |s| && Goes(r, i, s[i].createdAt)
    ensures Goes(r, j, s[j].createdAt)
  {
    assert !Before(KeysOf(s)[j], KeysOf(s)[i]);
  }

  /** The first version of an ordered list that goes, if any. */
  lemma {:induction false} DoomedIsTail(s: seq<Version>, r: Rules) returns (cut: nat)
    requires NewestFirst(s)
    ensures CutsAt(s, r, cut) && Doomed(s, r) == s[cut..]
  {
    if s == [] {
      cut := 0;
    } else {
      var n := |s| - 1;
      assert KeysOf(s[..n]) == KeysOf(s)[..n];
      cut := DoomedIsTail(s[..n], r);
      forall i | 0 <= i < n && Goes(r, i, s[i].createdAt) ensures Goes(r, n, s[n].createdAt) {
        OlderGoes(s, r, i, n);
      }
      forall i | 0 <= i < n ensures i >= cut <==> Goes(r, i, s[i].createdAt) {
        assert s[..n][i] == s[i];
      }
      if !Goes(r, n, s[n].createdAt) {
        assert cut == n;
        cut := n + 1;
      } else {
        assert s[..n][cut..] + [s[n]] == s[cut..];
      }
    }
  }

  /** A plan splits an image's unprotected versions, newest first, in two: what stays comes first,
      between the floor and the limit; what stays past the floor is young enough, and what goes is past
      the limit or too old. */
  lemma PlanIsTail(vs: seq<Version>, r: Rules, doomed: seq<Version>) returns (kept: seq<Version>)
    requires Consistent(r) && Planned(vs, r, doomed)
    ensures NewestFirst(kept + doomed) && multiset(kept) + multiset(doomed) == multiset(vs)
    ensures Min(|vs|, r.keepMin) <= |kept| <= r.keep
    ensures forall i :: r.keepMin <= i < |kept| ==> !TooOld(r, kept[i].createdAt)
    ensures |kept| < Min(|vs|, r.keep) ==> forall v :: v in doomed ==> TooOld(r, v.createdAt)
  {
    var s: seq<Version> :| NewestFirst(s) && multiset(s) == multiset(vs) && doomed == Doomed(s, r);
    var cut := DoomedIsTail(s, r);
    kept := s[..cut];
    Halves(s, cut);
    assert |multiset(s)| == |s| && |multiset(vs)| == |vs|;
    CutBounds(s, r, cut);
    if cut < Min(|vs|, r.keep) { TailTooOld(s, r, cut); }
  }

  lemma Halves(s: seq<Version>, cut: nat)
    requires cut <= |s|
    ensures s[..cut] + s[cut..] == s && multiset(s[..cut]) + multiset(s[cut..]) == multiset(s)
  {
    assert s[..cut] + s[cut..] == s;
  }

  predicate CutsAt(s: seq<Version>, r: Rules, cut: nat) {
    cut <= |s| && forall i :: 0 <= i < |s| ==> (i >= cut <==> Goes(r, i, s[i].createdAt))
  }

  lemma CutBounds(s: seq<Version>, r: Rules, cut: nat)
    requires Consistent(r) && CutsAt(s, r, cut)
    ensures Min(|s|, r.keepMin) <= cut <= r.keep
    ensures forall i :: r.keepMin <= i < cut ==> !TooOld(r, s[i].createdAt)
  {
    if cut > 0 {
      var last := s[cut - 1];
      assert !Goes(r, cut - 1, last.createdAt);
    }
    if cut < |s| {
      var first := s[cut];
      assert Goes(r, cut, first.createdAt);
    }
  }

  lemma TailTooOld(s: seq<Version>, r: Rules, cut: nat)
    requires Consistent(r) && NewestFirst(s) && CutsAt(s, r, cut) && cut < |s| && cut < r.keep
    ensures forall v :: v in s[cut..] ==> TooOld(r, v.createdAt)
  {
    var first := s[cut];
    assert Goes(r, cut, first.createdAt);
    forall v | v in s[cut..] ensures TooOld(r, v.createdAt) {
      var i :| 0 <= i < |s| - cut && s[cut..][i] == v;
      assert KeysOf(s)[cut + i] == KeyOf(v) && KeysOf(s)[cut] == KeyOf(first);
    }
  }

  /** No two different versions have the same time and version string. */
  predicate NoTies(vs: seq<Version>) {
    forall i, j :: 0 <= i < |vs| && 0 <= j < |vs| && KeyOf(vs[i]) == KeyOf(vs[j]) ==> vs[i] == vs[j]
  }

  lemma SameOrder(s: seq<Version>, t: seq<Version>, vs: seq<Version>)
    requires NewestFirst(s) && NewestFirst(t) && multiset(s) == multiset(t) == multiset(vs) && NoTies(vs)
    ensures s == t
  {
    SameKeys(s, t);
    assert |s| == |KeysOf(s)| == |t|;
    forall i | 0 <= i < |s| ensures s[i] == t[i] {
      assert s[i] in multiset(s) && t[i] in multiset(t);
      var a :| 0 <= a < |vs| && vs[a] == s[i];
      var b :| 0 <= b < |vs| && vs[b] == t[i];
      assert KeysOf(s)[i] == KeysOf(t)[i];
    }
  }

  lemma CountLast(s: seq<Version>, v: Version)
    requires s != []
    ensures multiset(s)[v] == multiset(s[..|s| - 1])[v] + if s[|s| - 1] == v then 1 else 0
  {
    assert s == s[..|s| - 1] + [s[|s| - 1]];
  }

  lemma {:induction false} CandidatesCount(versions: seq<Version>, name: string, r: Rules, v: Version)
    ensures multiset(Candidates(versions, name, r))[v] ==
      if v.name == name && v.version !in r.protected then multiset(versions)[v] else 0
  {
    if versions != [] {
      var n := |versions| - 1;
      CandidatesCount(versions[..n], name, r, v);
      CountLast(versions, v);
      var all, fewer := Candidates(versions, name, r), Candidates(versions[..n], name, r);
      if versions[n].name == name && versions[n].version !in r.protected {
        CountLast(all, v);
        assert all[..|all| - 1] == fewer;
      } else {
        assert all == fewer;
      }
    }
  }

  /** The plan for the same versions listed in any order is the same. */
  lemma PlanIgnoresOrder(a: seq<Version>, b: seq<Version>, r: Rules, planA: map<string, seq<Version>>, planB: map<string, seq<Version>>)
    requires multiset(a) == multiset(b) && PlanFor(a, r, planA) && PlanFor(b, r, planB)
    requires forall name :: NoTies(Candidates(a, name, r))
    ensures planA == planB
  {
    forall name ensures PlanAt(planA, name) == PlanAt(planB, name) {
      var ca, cb := Candidates(a, name, r), Candidates(b, name, r);
      forall v ensures multiset(ca)[v] == multiset(cb)[v] {
        CandidatesCount(a, name, r, v);
        CandidatesCount(b, name, r, v);
      }
      PlannedOnce(ca, cb, r, PlanAt(planA, name), PlanAt(planB, name));
    }
    SamePlan(planA, planB);
  }

  lemma PlannedOnce(ca: seq<Version>, cb: seq<Version>, r: Rules, da: seq<Version>, db: seq<Version>)
    requires (forall v :: multiset(ca)[v] == multiset(cb)[v]) && NoTies(ca)
    requires Planned(ca, r, da) && Planned(cb, r, db)
    ensures da == db
  {
    assert multiset(ca) == multiset(cb);
    var s: seq<Version> :| NewestFirst(s) && multiset(s) == multiset(ca) && da == Doomed(s, r);
    var t: seq<Version> :| NewestFirst(t) && multiset(t) == multiset(cb) && db == Doomed(t, r);
    SameOrder(s, t, ca);
  }

  lemma SamePlan(a: map<string, seq<Version>>, b: map<string, seq<Version>>)
    requires forall name :: PlanAt(a, name) == PlanAt(b, name)
    requires (forall name :: name in a ==> a[name] != []) && (forall name :: name in b ==> b[name] != [])
    ensures a == b
  {
    forall name ensures name in a <==> name in b {
      assert PlanAt(a, name) == PlanAt(b, name);
    }
    forall name | name in a ensures a[name] == b[name] {
      assert PlanAt(a, name) == PlanAt(b, name);
    }
  }

  /** No protected version is ever planned, and no version of another image. */
  lemma PlannedAreCandidates(versions: seq<Version>, r: Rules, plan: map<string, seq<Version>>, name: string, v: Version)
    requires PlanFor(versions, r, plan) && v in PlanAt(plan, name)
    ensures v in versions && v.name == name && v.version !in r.protected
  {
    var vs := Candidates(versions, name, r);
    var s: seq<Version> :| NewestFirst(s) && multiset(s) == multiset(vs) && PlanAt(plan, name) == Doomed(s, r);
    var cut := DoomedIsTail(s, r);
    assert v in s && v in multiset(s);
    CandidatesCount(versions, name, r, v);
    assert multiset(versions)[v] > 0;
  }

  /** An ordered beginning of which nothing went: sorted again any way, still nothing goes. */
  lemma KeptStays(s: seq<Version>, t: seq<Version>, r: Rules, cut: nat)
    requires cut <= |s| && NewestFirst(s) && NewestFirst(t) && multiset(t) == multiset(s[..cut])
    requires forall i :: 0 <= i < cut ==> !Goes(r, i, s[i].createdAt)
    ensures Doomed(t, r) == []
  {
    assert KeysOf(s[..cut]) == KeysOf(s)[..cut];
    SameKeys(s[..cut], t);
    var again := DoomedIsTail(t, r);
    assert |t| == |KeysOf(t)| == cut;
    forall i | 0 <= i < |t| ensures !Goes(r, i, t[i].createdAt) {
      assert KeysOf(t)[i] == KeysOf(s[..cut])[i];
    }
  }

  /** Planning again over what a plan left, however it is listed and however ties are sorted, deletes nothing. */
  lemma ReplanDeletesNothing(versions: seq<Version>, r: Rules, plan: map<string, seq<Version>>,
                             left: seq<Version>, again: map<string, seq<Version>>)
    requires PlanFor(versions, r, plan) && PlanFor(left, r, again)
    requires forall v :: multiset(left)[v] + multiset(PlanAt(plan, v.name))[v] == multiset(versions)[v]
    ensures again == map[]
  {
    forall name ensures PlanAt(again, name) == [] {
      var rest := Candidates(left, name, r);
      forall v ensures multiset(rest)[v] + multiset(PlanAt(plan, name))[v] == multiset(Candidates(versions, name, r))[v] {
        CandidatesCount(versions, name, r, v);
        CandidatesCount(left, name, r, v);
        if v in PlanAt(plan, name) { PlannedAreCandidates(versions, r, plan, name, v); }
      }
      KeptReplanned(Candidates(versions, name, r), r, PlanAt(plan, name), rest, PlanAt(again, name));
    }
    assert forall name :: name in again ==> PlanAt(again, name) != [];
  }

  lemma KeptReplanned(vs: seq<Version>, r: Rules, doomed: seq<Version>, rest: seq<Version>, again: seq<Version>)
    requires Planned(vs, r, doomed) && Planned(rest, r, again)
    requires forall v :: multiset(rest)[v] + multiset(doomed)[v] == multiset(vs)[v]
    ensures again == []
  {
    var s: seq<Version> :| NewestFirst(s) && multiset(s) == multiset(vs) && doomed == Doomed(s, r);
    var t: seq<Version> :| NewestFirst(t) && multiset(t) == multiset(rest) && again == Doomed(t, r);
    var cut := DoomedIsTail(s, r);
    Taken(s, cut, multiset(rest));
    KeptStays(s, t, r, cut);
  }

  lemma Taken<T>(s: seq<T>, cut: nat, rest: multiset<T>)
    requires cut <= |s| && forall v :: rest[v] + multiset(s[cut..])[v] == multiset(s)[v]
    ensures rest == multiset(s[..cut])
  {
    assert s == s[..cut] + s[cut..];
    assert multiset(s) == multiset(s[..cut]) + multiset(s[cut..]);
  }

  // ---- In plain numbers. ----

  /** Later first; at one time, the greater version string first. */
  predicate NewerFirst(a: Version, b: Version) {
    a.createdAt > b.createdAt || (a.createdAt == b.createdAt && AtMost(b.version, a.version))
  }

  /** The unprotected versions of an image stand in some newest-first order of which the plan is the end: all
      that is past the limit, between the floor and the limit exactly what is older than an age limit that is set,
      and nothing that is within both. */
  lemma PlanDecides(versions: seq<Version>, r: Rules, plan: map<string, seq<Version>>, name: string)
    returns (s: seq<Version>, cut: nat)
    requires PlanFor(versions, r, plan) && r.maxAge <= 0x7FFF_FFFF_FFFF_FFFF
    ensures forall v :: multiset(s)[v] == if v.name == name && v.version !in r.protected then multiset(versions)[v] else 0
    ensures forall i, j :: 0 <= i < j < |s| ==> NewerFirst(s[i], s[j])
    ensures cut <= |s| && PlanAt(plan, name) == s[cut..]
    ensures r.keep < |s| ==> cut <= r.keep || cut == 0
    ensures cut == |s| || cut >= r.keep || cut >= r.keepMin
    ensures forall i :: 0 <= i < |s| && r.keepMin <= i < r.keep ==> (i >= cut <==> Aged(r, s[i].createdAt))
  {
    s := OrderOf(Candidates(versions, name, r), r, PlanAt(plan, name));
    cut := DoomedIsTail(s, r);
    CandidatesCounted(versions, name, r, s);
    AllNewerFirst(s);
    CutInNumbers(s, r, cut);
  }

  lemma OrderOf(vs: seq<Version>, r: Rules, doomed: seq<Version>) returns (s: seq<Version>)
    requires Planned(vs, r, doomed)
    ensures NewestFirst(s) && multiset(s) == multiset(vs) && doomed == Doomed(s, r)
  {
    s :| NewestFirst(s) && multiset(s) == multiset(vs) && doomed == Doomed(s, r);
  }

  lemma CandidatesCounted(versions: seq<Version>, name: string, r: Rules, s: seq<Version>)
    requires multiset(s) == multiset(Candidates(versions, name, r))
    ensures forall v :: multiset(s)[v] == if v.name == name && v.version !in r.protected then multiset(versions)[v] else 0
  {
    forall v ensures multiset(s)[v] == if v.name == name && v.version !in r.protected then multiset(versions)[v] else 0 {
      CandidatesCount(versions, name, r, v);
    }
  }

  lemma CutInNumbers(s: seq<Version>, r: Rules, cut: nat)
    requires CutsAt(s, r, cut) && r.maxAge <= 0x7FFF_FFFF_FFFF_FFFF
    ensures r.keep < |s| ==> cut <= r.keep || cut == 0
    ensures cut == |s| || cut >= r.keep || cut >= r.keepMin
    ensures forall i :: 0 <= i < |s| && r.keepMin <= i < r.keep ==> (i >= cut <==> Aged(r, s[i].createdAt))
  {
    var first := if r.keep < 0 then 0 else r.keep;
    if first < |s| { assert Goes(r, first, s[first].createdAt); }
    if cut < |s| { assert Goes(r, cut, s[cut].createdAt); }
    forall i | 0 <= i < |s| && r.keepMin <= i < r.keep ensures i >= cut <==> Aged(r, s[i].createdAt) {
      AgedIsTooOld(r, s[i].createdAt);
      assert i >= cut <==> Goes(r, i, s[i].createdAt);
    }
  }

  lemma AllNewerFirst(s: seq<Version>)
    requires NewestFirst(s)
    ensures forall i, j :: 0 <= i < j < |s| ==> NewerFirst(s[i], s[j])
  {
    forall i, j | 0 <= i < j < |s| ensures NewerFirst(s[i], s[j]) {
      assert !Before(KeysOf(s)[j], KeysOf(s)[i]);
      AtMostTotal(s[i].version, s[j].version);
    }
  }

  /** An age limit is set, and the version is older than it. */
  predicate Aged(r: Rules, createdAt: int) { 0 < r.maxAge < 0x7FFF_FFFF_FFFF_FFFF && r.now - createdAt > r.maxAge }

  lemma AgedIsTooOld(r: Rules, createdAt: int)
    requires r.maxAge <= 0x7FFF_FFFF_FFFF_FFFF
    ensures TooOld(r, createdAt) <==> Aged(r, createdAt)
  {
  }

  /** Without an age limit exactly the versions past the limit go, however old the others are. */
  lemma NoAgeLimit(versions: seq<Version>, r: Rules, plan: map<string, seq<Version>>, name: string)
    requires PlanFor(versions, r, plan) && r.maxAge <= 0 && 0 <= r.keep
    ensures var n := |Candidates(versions, name, r)|; |PlanAt(plan, name)| == if n > r.keep then n - r.keep else 0
  {
    LimitOnly(Candidates(versions, name, r), r, PlanAt(plan, name));
  }

  lemma LimitOnly(vs: seq<Version>, r: Rules, doomed: seq<Version>)
    requires Planned(vs, r, doomed) && r.maxAge <= 0 && 0 <= r.keep
    ensures |doomed| == if |vs| > r.keep then |vs| - r.keep else 0
  {
    var s: seq<Version> :| NewestFirst(s) && multiset(s) == multiset(vs) && doomed == Doomed(s, r);
    var cut := DoomedIsTail(s, r);
    assert |s| == |multiset(s)| == |multiset(vs)| == |vs|;
    assert forall i :: 0 <= i < |s| ==> (i >= cut <==> Goes(r, i, s[i].createdAt));
    if cut < |s| { assert Goes(r, cut, s[cut].createdAt); }
    if r.keep < |s| { assert Goes(r, r.keep, s[r.keep].createdAt); }
  }

  /** With the tool's defaults an image of up to ten versions loses none. */
  lemma DefaultsKeepTen(versions: seq<Version>, now: int, protected: set<string>, plan: map<string, seq<Version>>, name: string)
    requires PlanFor(versions, Rules(10, 2, 0, now, protected), plan)
    requires |Candidates(versions, name, Rules(10, 2, 0, now, protected))| <= 10
    ensures name !in plan
  {
    NoAgeLimit(versions, Rules(10, 2, 0, now, protected), plan, name);
    assert PlanAt(plan, name) == [];
  }
}
