/** Table columns fitted to the terminal: spare width is shared by weight, missing width is taken from
    the widest column first. */
module ColumnLayout {

  /** A column's least width, and its weight when there is room to spare. */
  datatype ColSpec = ColSpec(title: string, min: nat, flex: nat)

  datatype Column = Column(title: string, width: int)

  const FLOOR := 4

  function Sum(s: seq<int>): int { if s == [] then 0 else Sum(s[..|s| - 1]) + s[|s| - 1] }

  function Mins(specs: seq<ColSpec>): seq<int> { seq(|specs|, i requires 0 <= i < |specs| => specs[i].min) }

  function Flexes(specs: seq<ColSpec>): seq<int> { seq(|specs|, i requires 0 <= i < |specs| => specs[i].flex) }

  /** The width left for the columns' contents. */
  function Available(specs: seq<ColSpec>, termWidth: int): int { termWidth - (2 * |specs| + 3) }

  lemma {:induction false} SumUpdate(s: seq<int>, i: nat, v: int)
    requires i < |s|
    ensures Sum(s[i := v]) == Sum(s) + v - s[i]
  {
    var n := |s| - 1;
    if i < n {
      SumUpdate(s[..n], i, v);
      assert s[i := v][..n] == s[..n][i := v];
    } else {
      assert s[i := v][..n] == s[..n];
    }
  }

  lemma SumSnoc(s: seq<int>, i: nat)
    requires i < |s|
    ensures Sum(s[..i + 1]) == Sum(s[..i]) + s[i]
  {
    assert s[..i + 1][..i] == s[..i];
  }

  lemma {:induction false} SumMonotone(a: seq<int>, b: seq<int>)
    requires |a| == |b| && forall i :: 0 <= i < |a| ==> a[i] <= b[i]
    ensures Sum(a) <= Sum(b)
    ensures Sum(a) == Sum(b) ==> a == b
  {
    if a != [] {
      var n := |a| - 1;
      SumMonotone(a[..n], b[..n]);
      assert a == a[..n] + [a[n]] && b == b[..n] + [b[n]];
    }
  }

  // ---- Room to spare. ----

  function Share(surplus: nat, flex: nat, total: nat): nat
    requires total > 0
  {
    surplus * flex / total
  }

  function Flexible(specs: seq<ColSpec>): nat {
    if specs == [] then 0 else Flexible(specs[..|specs| - 1]) + if specs[|specs| - 1].flex > 0 then 1 else 0
  }

  /** Column i is the last flexible one. */
  predicate LastFlexible(specs: seq<ColSpec>, i: nat) {
    i < |specs| && specs[i].flex > 0 && forall j :: i < j < |specs| ==> specs[j].flex == 0
  }

  /** Every column has its least width; a flexible one has the whole cells of its share of the surplus
      on top, the last of them also what rounding left over, which is less than a cell per flexible
      column. */
  predicate Widened(specs: seq<ColSpec>, w: seq<int>, surplus: nat)
    requires Sum(Flexes(specs)) > 0
  {
    && |w| == |specs|
    && Sum(w) == Sum(Mins(specs)) + surplus
    && forall i :: 0 <= i < |specs| ==> Placed(specs, w, surplus, i)
  }

  predicate Placed(specs: seq<ColSpec>, w: seq<int>, surplus: nat, i: nat)
    requires Sum(Flexes(specs)) > 0 && |w| == |specs| && i < |specs|
  {
    var extra := Extra(specs, w, surplus, i);
    if LastFlexible(specs, i) then 0 <= extra < Flexible(specs) else extra == 0
  }

  lemma ShareBounds(surplus: nat, flex: nat, total: nat)
    requires total > 0
    ensures Share(surplus, flex, total) * total <= surplus * flex < Share(surplus, flex, total) * total + total
    ensures flex == 0 ==> Share(surplus, flex, total) == 0 && surplus * flex == 0
  {
  }

  /** Whole cells given for an exact due, scaled by the total weight: short by less than a cell per column. */
  predicate Owed(due: int, given: int, count: nat, total: int) {
    && 0 <= due - given * total
    && (count == 0 ==> due - given * total == 0)
    && (count > 0 ==> due - given * total < count * total)
  }

  lemma Distribute(a: int, b: int, c: int)
    ensures (a + b) * c == a * c + b * c && c * (a + b) == c * a + c * b
  {
  }

  lemma OwedMore(due: int, given: int, count: nat, total: int, more: int, add: int)
    requires Owed(due, given, count, total) && total > 0
    requires add * total <= more < add * total + total
    ensures Owed(due + more, given + add, count + 1, total)
  {
    Distribute(given, add, total);
    Distribute(count, 1, total);
  }

  /** What has been given to the first i columns. */
  predicate GivenSoFar(specs: seq<ColSpec>, i: nat, surplus: nat, given: int)
    requires i <= |specs|
  {
    Owed(surplus * Sum(Flexes(specs)[..i]), given, Flexible(specs[..i]), Sum(Flexes(specs)))
  }

  lemma GivenStep(specs: seq<ColSpec>, i: nat, surplus: nat, given: int)
    requires i < |specs| && Sum(Flexes(specs)) > 0 && GivenSoFar(specs, i, surplus, given)
    ensures GivenSoFar(specs, i + 1, surplus, given + Share(surplus, specs[i].flex, Sum(Flexes(specs))))
  {
    var total, flex := Sum(Flexes(specs)), specs[i].flex;
    var before := Sum(Flexes(specs)[..i]);
    SumSnoc(Flexes(specs), i);
    assert specs[..i + 1][..i] == specs[..i];
    ShareBounds(surplus, flex, total);
    Distribute(before, flex, surplus);
    if flex > 0 {
      OwedMore(surplus * before, given, Flexible(specs[..i]), total, surplus * flex, Share(surplus, flex, total));
    }
  }

  lemma Cancelled(a: int, b: int, total: int)
    requires total > 0
    ensures a * total <= b * total ==> a <= b
    ensures a * total < b * total ==> a < b
    ensures a * total == b * total ==> a == b
  {
  }

  lemma PaidOff(surplus: nat, given: int, count: nat, total: int)
    requires total > 0 && Owed(surplus * total, given, count, total)
    ensures given <= surplus && (count == 0 ==> given == surplus) && (count > 0 ==> surplus < given + count)
  {
    Cancelled(given, surplus, total);
    Distribute(given, count, total);
    Cancelled(surplus, given + count, total);
  }

  lemma AllGiven(specs: seq<ColSpec>, surplus: nat, given: int)
    requires Sum(Flexes(specs)) > 0 && GivenSoFar(specs, |specs|, surplus, given)
    ensures given <= surplus && (Flexible(specs) == 0 ==> given == surplus) && (Flexible(specs) > 0 ==> surplus < given + Flexible(specs))
  {
    assert Flexes(specs)[..|specs|] == Flexes(specs) && specs[..|specs|] == specs;
    PaidOff(surplus, given, Flexible(specs), Sum(Flexes(specs)));
  }

  /** The widths after the first i columns have been given their whole cells. */
  predicate Shared(specs: seq<ColSpec>, w: seq<int>, i: nat, surplus: nat)
    requires Sum(Flexes(specs)) > 0 && |w| == |specs|
  {
    forall j :: 0 <= j < |specs| ==>
      w[j] == specs[j].min + if j < i then Share(surplus, specs[j].flex, Sum(Flexes(specs))) else 0
  }

  lemma {:induction false} NoneFlexible(specs: seq<ColSpec>, i: nat)
    requires i <= |specs| && forall j :: i <= j < |specs| ==> specs[j].flex == 0
    ensures Flexible(specs) == Flexible(specs[..i])
    decreases |specs|
  {
    if i == |specs| {
      assert specs[..i] == specs;
    } else {
      var n := |specs| - 1;
      assert specs[..n][..i] == specs[..i];
      NoneFlexible(specs[..n], i);
    }
  }

  lemma SharedStep(specs: seq<ColSpec>, w: seq<int>, i: nat, surplus: nat)
    requires i < |specs| == |w| && Sum(Flexes(specs)) > 0 && Shared(specs, w, i, surplus)
    ensures var add := Share(surplus, specs[i].flex, Sum(Flexes(specs)));
      && Shared(specs, w[i := w[i] + add], i + 1, surplus) && Sum(w[i := w[i] + add]) == Sum(w) + add
      && (specs[i].flex == 0 ==> add == 0 && w[i := w[i] + add] == w)
  {
    ShareBounds(surplus, specs[i].flex, Sum(Flexes(specs)));
    SumUpdate(w, i, w[i] + Share(surplus, specs[i].flex, Sum(Flexes(specs))));
  }

  lemma Absorbed(specs: seq<ColSpec>, w: seq<int>, last: nat, surplus: nat, extra: nat)
    requires |w| == |specs| && Sum(Flexes(specs)) > 0 && Shared(specs, w, |specs|, surplus) && LastFlexible(specs, last)
    requires Sum(w) + extra == Sum(Mins(specs)) + surplus && extra < Flexible(specs)
    ensures Widened(specs, w[last := w[last] + extra], surplus)
  {
    var v := w[last := w[last] + extra];
    AbsorbedSum(w, v, last, extra);
    AbsorbedAll(specs, w, v, last, surplus, extra);
  }

  lemma AbsorbedSum(w: seq<int>, v: seq<int>, last: nat, extra: nat)
    requires last < |w| && v == w[last := w[last] + extra]
    ensures |v| == |w| && Sum(v) == Sum(w) + extra
  {
    SumUpdate(w, last, w[last] + extra);
  }

  lemma AbsorbedAll(specs: seq<ColSpec>, w: seq<int>, v: seq<int>, last: nat, surplus: nat, extra: nat)
    requires |w| == |specs| && Sum(Flexes(specs)) > 0 && Shared(specs, w, |specs|, surplus) && LastFlexible(specs, last)
    requires extra < Flexible(specs) && v == w[last := w[last] + extra]
    ensures forall i :: 0 <= i < |specs| ==> Placed(specs, v, surplus, i)
  {
    forall i | 0 <= i < |specs| ensures Placed(specs, v, surplus, i) {
      AbsorbedAt(specs, w, last, surplus, extra, i);
    }
  }

  lemma AbsorbedAt(specs: seq<ColSpec>, w: seq<int>, last: nat, surplus: nat, extra: nat, i: nat)
    requires |w| == |specs| && Sum(Flexes(specs)) > 0 && Shared(specs, w, |specs|, surplus) && LastFlexible(specs, last)
    requires extra < Flexible(specs) && i < |specs|
    ensures Placed(specs, w[last := w[last] + extra], surplus, i)
  {
    SharedExtra(specs, w, surplus, i);
    assert LastFlexible(specs, i) <==> i == last;
  }

  /** What column i has beyond its least width and its whole share. */
  function Extra(specs: seq<ColSpec>, w: seq<int>, surplus: nat, i: nat): int
    requires Sum(Flexes(specs)) > 0 && |w| == |specs| && i < |specs|
  {
    w[i] - specs[i].min - Share(surplus, specs[i].flex, Sum(Flexes(specs)))
  }

  lemma SharedExtra(specs: seq<ColSpec>, w: seq<int>, surplus: nat, i: nat)
    requires |w| == |specs| && Sum(Flexes(specs)) > 0 && Shared(specs, w, |specs|, surplus) && i < |specs|
    ensures Extra(specs, w, surplus, i) == 0
  {
  }

  lemma OneLast(specs: seq<ColSpec>, last: nat)
    requires LastFlexible(specs, last)
    ensures forall i :: 0 <= i < |specs| ==> (LastFlexible(specs, i) <==> i == last)
  {
  }

  /** The state after i columns. */
  predicate Sharing(specs: seq<ColSpec>, w: seq<int>, i: nat, surplus: nat, given: int)
    requires Sum(Flexes(specs)) > 0 && i <= |specs|
  {
    && |w| == |specs| && Shared(specs, w, i, surplus) && GivenSoFar(specs, i, surplus, given)
    && Sum(w) == Sum(Mins(specs)) + given
  }

  method GiveShare(specs: seq<ColSpec>, widths: array<int>, i: nat, surplus: nat, flexTotal: int, ghost given: int) returns (add: int)
    requires flexTotal == Sum(Flexes(specs)) > 0 && i < |specs| && Sharing(specs, widths[..], i, surplus, given)
    modifies widths
    ensures Sharing(specs, widths[..], i + 1, surplus, given + add)
  {
    ghost var before := widths[..];
    GivenStep(specs, i, surplus, given);
    SharedStep(specs, before, i, surplus);
    add := surplus * specs[i].flex / flexTotal;
    widths[i] := widths[i] + add;
    assert widths[..] == before[i := before[i] + add];
  }

  lemma NothingGiven(specs: seq<ColSpec>, surplus: nat)
    requires Sum(Flexes(specs)) > 0
    ensures Sharing(specs, Mins(specs), 0, surplus, 0)
  {
    assert Flexes(specs)[..0] == [] && specs[..0] == [];
  }

  lemma NoShare(specs: seq<ColSpec>, w: seq<int>, i: nat, surplus: nat, given: int)
    requires Sum(Flexes(specs)) > 0 && i < |specs| && Sharing(specs, w, i, surplus, given) && specs[i].flex == 0
    ensures Sharing(specs, w, i + 1, surplus, given)
  {
    GivenStep(specs, i, surplus, given);
    SharedStep(specs, w, i, surplus);
  }

  /** The last flexible column of the first i, or -1. */
  predicate LastSoFar(specs: seq<ColSpec>, i: nat, last: int)
    requires i <= |specs|
  {
    -1 <= last < i && (last >= 0 ==> specs[last].flex > 0) && forall j :: last < j < i ==> specs[j].flex == 0
  }

  /** The flexible columns' whole shares; also what they add up to, and the last flexible column. */
  method GiveShares(specs: seq<ColSpec>, widths: array<int>, surplus: nat, flexTotal: int) returns (given: int, lastFlex: int)
    requires widths[..] == Mins(specs) && flexTotal == Sum(Flexes(specs)) > 0
    modifies widths
    ensures Sharing(specs, widths[..], |specs|, surplus, given)
    ensures if lastFlex >= 0 then LastFlexible(specs, lastFlex) else forall j :: 0 <= j < |specs| ==> specs[j].flex == 0
  {
    given, lastFlex := 0, -1;
    NothingGiven(specs, surplus);
    for i := 0 to |specs|
      invariant Sharing(specs, widths[..], i, surplus, given)
      invariant LastSoFar(specs, i, lastFlex)
    {
      if specs[i].flex == 0 {
        NoShare(specs, widths[..], i, surplus, given);
        continue;
      }
      var add := GiveShare(specs, widths, i, surplus, flexTotal, given);
      given := given + add;
      lastFlex := i;
    }
  }

  lemma LastAbsorbs(specs: seq<ColSpec>, w: seq<int>, last: nat, surplus: nat, given: int)
    requires Sum(Flexes(specs)) > 0 && Sharing(specs, w, |specs|, surplus, given) && LastFlexible(specs, last)
    ensures last < |w| && Widened(specs, w[last := w[last] + (surplus - given)], surplus)
  {
    AllGiven(specs, surplus, given);
    FlexibleSome(specs, last);
    Absorbed(specs, w, last, surplus, surplus - given);
  }

  /** Shares the surplus among the flexible columns. */
  method Widen(specs: seq<ColSpec>, widths: array<int>, surplus: nat, flexTotal: int)
    requires widths[..] == Mins(specs) && flexTotal == Sum(Flexes(specs)) > 0
    modifies widths
    ensures Widened(specs, widths[..], surplus)
  {
    var given, lastFlex := GiveShares(specs, widths, surplus, flexTotal);
    if lastFlex >= 0 {
      LastAbsorbs(specs, widths[..], lastFlex, surplus, given);
      Adjust(widths, lastFlex, surplus - given);
    } else {
      AllGiven(specs, surplus, given);
      NoneFlexible(specs, 0);
    }
  }

  lemma {:induction false} FlexibleSome(specs: seq<ColSpec>, i: nat)
    requires i < |specs| && specs[i].flex > 0
    ensures Flexible(specs) > 0
  {
    if i < |specs| - 1 { FlexibleSome(specs[..|specs| - 1], i); }
  }

  // ---- Too narrow. ----

  function Least(spec: ColSpec): int { if spec.min < FLOOR then spec.min else FLOOR }

  /** No column is wider than its least width or narrower than the floor; a column that gave cells up is
      at most one narrower than any other, and than none before it. */
  predicate Shrunk(specs: seq<ColSpec>, w: seq<int>) {
    && |w| == |specs|
    && (forall i :: 0 <= i < |w| ==> Least(specs[i]) <= w[i] <= specs[i].min)
    && forall i, j :: 0 <= i < |w| && 0 <= j < |w| && w[i] < specs[i].min ==> w[j] <= w[i] + if j > i then 1 else 0
  }

  /** The leftmost widest column above the floor gives up a cell. */
  lemma ShrinkStep(specs: seq<ColSpec>, w: seq<int>, i: nat)
    requires Shrunk(specs, w) && IsWidest(w, i)
    ensures Shrunk(specs, w[i := w[i] - 1])
  {
  }

  /** The leftmost of the widest, and wide enough to give up a cell. */
  predicate IsWidest(w: seq<int>, i: nat) {
    i < |w| && w[i] > FLOOR && forall j :: 0 <= j < |w| && w[j] > FLOOR ==> w[j] <= w[i] && (j < i ==> w[j] < w[i])
  }

  method Widest(widths: array<int>) returns (widest: int)
    ensures -1 <= widest < widths.Length
    ensures widest < 0 ==> forall i :: 0 <= i < widths.Length ==> widths[i] <= FLOOR
    ensures widest >= 0 ==> IsWidest(widths[..], widest)
  {
    widest := -1;
    for i := 0 to widths.Length
      invariant -1 <= widest < i
      invariant widest < 0 ==> forall j :: 0 <= j < i ==> widths[j] <= FLOOR
      invariant widest >= 0 ==> widths[widest] > FLOOR
      invariant widest >= 0 ==> forall j :: 0 <= j < i && widths[j] > FLOOR ==>
        widths[j] <= widths[widest] && (j < widest ==> widths[j] < widths[widest])
    {
      if widths[i] > FLOOR && (widest < 0 || widths[i] > widths[widest]) {
        widest := i;
      }
    }
  }

  method Adjust(widths: array<int>, i: nat, more: int)
    requires i < widths.Length
    modifies widths
    ensures widths[..] == old(widths[..])[i := old(widths[i]) + more]
  {
    widths[i] := widths[i] + more;
  }

  /** The state of the narrowing once some cells have been taken. */
  predicate Narrowing(specs: seq<ColSpec>, w: seq<int>, taken: int) {
    Shrunk(specs, w) && Sum(w) == Sum(Mins(specs)) - taken
  }

  lemma NothingTaken(specs: seq<ColSpec>)
    ensures Narrowing(specs, Mins(specs), 0)
  {
  }

  lemma CellTaken(specs: seq<ColSpec>, w: seq<int>, i: nat, taken: int)
    requires Narrowing(specs, w, taken) && IsWidest(w, i)
    ensures Narrowing(specs, w[i := w[i] - 1], taken + 1)
  {
    ShrinkStep(specs, w, i);
    SumUpdate(w, i, w[i] - 1);
  }

  /** The leftmost widest column gives up a cell, unless all are at the floor. */
  method TakeCell(specs: seq<ColSpec>, widths: array<int>, ghost taken: int) returns (found: bool)
    requires Narrowing(specs, widths[..], taken)
    modifies widths
    ensures found ==> Narrowing(specs, widths[..], taken + 1)
    ensures !found ==> widths[..] == old(widths[..]) && forall i :: 0 <= i < widths.Length ==> widths[i] <= FLOOR
  {
    var widest := Widest(widths);
    found := widest >= 0;
    if found {
      CellTaken(specs, widths[..], widest, taken);
      Adjust(widths, widest, -1);
    }
  }

  /** Takes the deficit from the widest columns, as far as the floor allows. */
  method Shrink(specs: seq<ColSpec>, widths: array<int>, missing: nat)
    requires widths[..] == Mins(specs)
    modifies widths
    ensures Shrunk(specs, widths[..])
    ensures Sum(widths[..]) == Sum(Mins(specs)) - missing ||
            (Sum(widths[..]) > Sum(Mins(specs)) - missing && forall i :: 0 <= i < |specs| ==> widths[i] <= FLOOR)
  {
    var deficit := missing;
    NothingTaken(specs);
    while deficit > 0
      invariant 0 <= deficit <= missing && Narrowing(specs, widths[..], missing - deficit)
    {
      var found := TakeCell(specs, widths, missing - deficit);
      if !found {
        break;
      }
      deficit := deficit - 1;
    }
  }

  /** Those conditions leave no choice: two layouts that meet them and are equally wide are the same. */
  lemma ShrunkUnique(specs: seq<ColSpec>, a: seq<int>, b: seq<int>)
    requires Shrunk(specs, a) && Shrunk(specs, b) && Sum(a) == Sum(b)
    ensures a == b
  {
    forall i, j | 0 <= i < |a| && 0 <= j < |a| ensures a[i] <= b[i] || b[j] <= a[j] {
    }
    if forall i :: 0 <= i < |a| ==> a[i] <= b[i] {
      SumMonotone(a, b);
    } else {
      SumMonotone(b, a);
    }
  }

  // ---- The whole. ----

  /** What the layout of the given columns in the given width must be. */
  predicate Fitted(specs: seq<ColSpec>, termWidth: int, w: seq<int>) {
    var available, used := Available(specs, termWidth), Sum(Mins(specs));
    && |w| == |specs|
    && if available > used && Sum(Flexes(specs)) > 0 then Widened(specs, w, available - used)
       else if available < used then
         Shrunk(specs, w) && (Sum(w) == available || (Sum(w) > available && forall i :: 0 <= i < |w| ==> w[i] <= FLOOR))
       else w == Mins(specs)
  }

  function Widths(cols: seq<Column>): seq<int> { seq(|cols|, i requires 0 <= i < |cols| => cols[i].width) }

  lemma FittedWide(specs: seq<ColSpec>, termWidth: int, w: seq<int>)
    requires Available(specs, termWidth) > Sum(Mins(specs)) && Sum(Flexes(specs)) > 0
    requires Widened(specs, w, Available(specs, termWidth) - Sum(Mins(specs)))
    ensures Fitted(specs, termWidth, w)
  {
  }

  lemma FittedNarrow(specs: seq<ColSpec>, termWidth: int, w: seq<int>)
    requires Available(specs, termWidth) < Sum(Mins(specs)) && Shrunk(specs, w)
    requires var available := Available(specs, termWidth);
      Sum(w) == available || (Sum(w) > available && forall i :: 0 <= i < |w| ==> w[i] <= FLOOR)
    ensures Fitted(specs, termWidth, w)
  {
  }

  lemma FittedExactly(specs: seq<ColSpec>, termWidth: int)
    requires Available(specs, termWidth) >= Sum(Mins(specs))
    requires Available(specs, termWidth) == Sum(Mins(specs)) || Sum(Flexes(specs)) <= 0
    ensures Fitted(specs, termWidth, Mins(specs))
  {
  }

  /** The least widths, what they add up to, and the total weight. */
  method LeastWidths(specs: seq<ColSpec>) returns (widths: array<int>, used: int, flexTotal: int)
    ensures fresh(widths) && widths[..] == Mins(specs)
    ensures used == Sum(Mins(specs)) && flexTotal == Sum(Flexes(specs))
  {
    var n := |specs|;
    widths := new int[n];
    used, flexTotal := 0, 0;
    for i := 0 to n
      invariant forall j :: 0 <= j < i ==> widths[j] == specs[j].min
      invariant used == Sum(Mins(specs)[..i]) && flexTotal == Sum(Flexes(specs)[..i])
    {
      widths[i] := specs[i].min;
      SumSnoc(Mins(specs), i);
      SumSnoc(Flexes(specs), i);
      used := used + specs[i].min;
      flexTotal := flexTotal + specs[i].flex;
    }
    assert Mins(specs)[..n] == Mins(specs) && Flexes(specs)[..n] == Flexes(specs);
  }

  method FitWidths(specs: seq<ColSpec>, termWidth: int) returns (widths: array<int>)
    ensures fresh(widths) && Fitted(specs, termWidth, widths[..])
  {
    var used, flexTotal;
    widths, used, flexTotal := LeastWidths(specs);
    var avail := termWidth - (2 * |specs| + 3);
    if avail > used && flexTotal > 0 {
      Widen(specs, widths, avail - used, flexTotal);
      FittedWide(specs, termWidth, widths[..]);
    } else if avail < used {
      Shrink(specs, widths, used - avail);
      FittedNarrow(specs, termWidth, widths[..]);
    } else {
      FittedExactly(specs, termWidth);
    }
  }

  method FitColumns(specs: seq<ColSpec>, termWidth: int) returns (cols: seq<Column>)
    ensures |cols| == |specs| && forall i :: 0 <= i < |specs| ==> cols[i].title == specs[i].title
    ensures Fitted(specs, termWidth, Widths(cols))
  {
    var widths := FitWidths(specs, termWidth);
    cols := [];
    for i := 0 to |specs|
      invariant |cols| == i && forall j :: 0 <= j < i ==> cols[j] == Column(specs[j].title, widths[j])
    {
      cols := cols + [Column(specs[i].title, widths[i])];
    }
    assert Widths(cols) == widths[..];
  }

  /** The layout is determined by the columns and the width alone. */
  lemma FittedUnique(specs: seq<ColSpec>, termWidth: int, a: seq<int>, b: seq<int>)
    requires Fitted(specs, termWidth, a) && Fitted(specs, termWidth, b)
    ensures a == b
  {
    var available, used := Available(specs, termWidth), Sum(Mins(specs));
    if available > used && Sum(Flexes(specs)) > 0 {
      WidenedUnique(specs, a, b, available - used);
    } else if available < used {
      if Sum(a) > available { FloorsReached(specs, a, b); }
      if Sum(b) > available { FloorsReached(specs, b, a); }
      if Sum(a) == Sum(b) { ShrunkUnique(specs, a, b); }
    }
  }

  lemma WidenedUnique(specs: seq<ColSpec>, a: seq<int>, b: seq<int>, surplus: nat)
    requires Sum(Flexes(specs)) > 0 && Widened(specs, a, surplus) && Widened(specs, b, surplus)
    ensures a == b
  {
    forall j | 0 <= j < |specs| && !LastFlexible(specs, j) ensures a[j] == b[j] {
      WidenedAt(specs, a, surplus, j);
      WidenedAt(specs, b, surplus, j);
    }
    if i :| 0 <= i < |specs| && LastFlexible(specs, i) {
      OneLast(specs, i);
      if a[i] <= b[i] { SumMonotone(a, b); } else { SumMonotone(b, a); }
    }
  }

  lemma WidenedAt(specs: seq<ColSpec>, w: seq<int>, surplus: nat, i: nat)
    requires Sum(Flexes(specs)) > 0 && Widened(specs, w, surplus) && i < |specs|
    ensures var least := specs[i].min + Share(surplus, specs[i].flex, Sum(Flexes(specs)));
      w[i] >= least && (!LastFlexible(specs, i) ==> w[i] == least)
  {
    assert Placed(specs, w, surplus, i);
  }

  /** With every column at its floor no layout is narrower. */
  lemma FloorsReached(specs: seq<ColSpec>, a: seq<int>, b: seq<int>)
    requires Shrunk(specs, a) && Shrunk(specs, b) && forall i :: 0 <= i < |a| ==> a[i] <= FLOOR
    ensures Sum(a) <= Sum(b)
  {
    SumMonotone(a, b);
  }

  /** The layout in cells of the terminal, of which every column takes two more and the border three: no column
      is under four cells or its least width, a table that is too wide fills the terminal or has every column at
      four, a table with room to spare and a flexible column fills it, and any other keeps its least widths. */
  lemma FittedInCells(specs: seq<ColSpec>, termWidth: int, w: seq<int>)
    requires Fitted(specs, termWidth, w)
    ensures |w| == |specs| && forall i :: 0 <= i < |specs| ==> w[i] >= 4 || w[i] >= specs[i].min
    ensures var least, total := Sum(Mins(specs)) + 2 * |specs| + 3, Sum(w) + 2 * |specs| + 3;
      && (least > termWidth ==>
            total == termWidth || (total > termWidth && forall i :: 0 <= i < |specs| ==> w[i] <= 4))
      && (least > termWidth ==> forall i :: 0 <= i < |specs| ==> w[i] <= specs[i].min)
      && (least < termWidth && (exists i :: 0 <= i < |specs| && specs[i].flex > 0) ==>
            total == termWidth && forall i :: 0 <= i < |specs| ==> w[i] >= specs[i].min)
      && (least == termWidth || (least < termWidth && forall i :: 0 <= i < |specs| ==> specs[i].flex == 0) ==> w == Mins(specs))
  {
    var available, used := Available(specs, termWidth), Sum(Mins(specs));
    if i :| 0 <= i < |specs| && specs[i].flex > 0 { SomeFlex(specs, i); } else { NoFlex(specs); }
    if available > used && Sum(Flexes(specs)) > 0 {
      WidenedAtLeast(specs, w, available - used);
    } else if available < used {
      ShrunkAtLeast(specs, w);
    } else {
      assert w == Mins(specs);
    }
  }

  lemma ShrunkAtLeast(specs: seq<ColSpec>, w: seq<int>)
    requires Shrunk(specs, w)
    ensures forall i :: 0 <= i < |specs| ==> (w[i] >= 4 || w[i] >= specs[i].min) && w[i] <= specs[i].min
  {
    forall i | 0 <= i < |specs| ensures (w[i] >= 4 || w[i] >= specs[i].min) && w[i] <= specs[i].min {
      assert Least(specs[i]) <= w[i];
    }
  }

  lemma {:induction false} SomeFlex(specs: seq<ColSpec>, i: nat)
    requires i < |specs| && specs[i].flex > 0
    ensures Sum(Flexes(specs)) > 0
  {
    var n := |specs| - 1;
    assert Flexes(specs)[..n] == Flexes(specs[..n]);
    FlexNotNegative(specs[..n]);
    if i < n { SomeFlex(specs[..n], i); }
  }

  lemma {:induction false} FlexNotNegative(specs: seq<ColSpec>)
    ensures Sum(Flexes(specs)) >= 0
  {
    if specs != [] {
      var n := |specs| - 1;
      assert Flexes(specs)[..n] == Flexes(specs[..n]);
      FlexNotNegative(specs[..n]);
    }
  }

  lemma {:induction false} NoFlex(specs: seq<ColSpec>)
    requires forall i :: 0 <= i < |specs| ==> specs[i].flex == 0
    ensures Sum(Flexes(specs)) == 0
  {
    if specs != [] {
      var n := |specs| - 1;
      assert Flexes(specs)[..n] == Flexes(specs[..n]);
      NoFlex(specs[..n]);
    }
  }

  lemma WidenedAtLeast(specs: seq<ColSpec>, w: seq<int>, surplus: nat)
    requires Sum(Flexes(specs)) > 0 && Widened(specs, w, surplus)
    ensures Sum(w) == Sum(Mins(specs)) + surplus && forall i :: 0 <= i < |specs| ==> w[i] >= specs[i].min
  {
    forall i | 0 <= i < |specs| ensures w[i] >= specs[i].min {
      WidenedAt(specs, w, surplus, i);
    }
  }
}
