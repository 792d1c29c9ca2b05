/** The printed environment as a form field: its text is trimmed before it is read. */
module EnvTrim {
  import opened Options
  import opened Text
  import opened CommandLine
  import opened EnvTokens

  /** Trimming takes nothing off the first key. */
  predicate FirstHolds(keys: seq<string>)
    requires keys != []
  {
    keys[0] == "" || !IsSpace(keys[0][0])
  }

  /** Trimming takes nothing off a value that ends the text. */
  predicate ValueHolds(v: string) { NeedsQuote(v) || v == "" || !IsSpace(v[|v| - 1]) }

  function LastKey(keys: seq<string>): string
    requires keys != []
  {
    keys[|keys| - 1]
  }

  predicate EdgesHold(keys: seq<string>, m: Env)
    requires keys != [] && forall k :: k in keys ==> k in m
  {
    FirstHolds(keys) && ValueHolds(m[LastKey(keys)])
  }

  predicate Distinct(keys: seq<string>) { forall i, j :: 0 <= i < j < |keys| ==> keys[i] != keys[j] }

  predicate CleanKeys(keys: seq<string>, m: Env) { forall k :: k in keys ==> k in m && CleanKey(k) }

  // ---- What trimming does to the printed text. ----

  lemma {:induction false} TrimLeftStops(a: string, s: string)
    requires s != "" && !IsSpace(s[0])
    ensures TrimLeft(a + s) == TrimLeft(a) + s
  {
    if a == "" {
      assert a + s == s;
    } else {
      assert (a + s)[0] == a[0] && (a + s)[1..] == a[1..] + s;
      TrimLeftStops(a[1..], s);
    }
  }

  lemma {:induction false} TrimRightInside(a: string, b: string)
    requires TrimRight(b) != "" || (a != "" && !IsSpace(a[|a| - 1]))
    ensures TrimRight(a + b) == a + TrimRight(b)
    decreases |b|
  {
    if b == "" {
      assert a + b == a;
    } else if IsSpace(b[|b| - 1]) {
      assert (a + b)[..|a + b| - 1] == a + b[..|b| - 1];
      TrimRightInside(a, b[..|b| - 1]);
    }
  }

  /** The last value as trimming leaves it. */
  function Cropped(v: string): string { if NeedsQuote(v) then v else TrimRight(v) }

  lemma EndStays(s: string)
    requires s != "" && !IsSpace(s[|s| - 1])
    ensures TrimRight(s) == s
  {
  }

  lemma CroppedShown(v: string, table: char -> bool)
    ensures TrimRight("=" + Shown(v, table)) == "=" + Shown(Cropped(v), table)
  {
    if NeedsQuote(v) {
      var q := Quote(v, table);
      assert q[|q| - 1] == '"' && ("=" + q)[|q|] == q[|q| - 1];
      EndStays("=" + q);
    } else {
      TrimRightResult(v);
      assert forall c :: c in TrimRight(v) ==> c in v;
      TrimRightInside("=", v);
    }
  }

  lemma CroppedAssignment(k: string, v: string, table: char -> bool)
    ensures TrimRight(Assignment(k, v, table)) == Assignment(k, Cropped(v), table) != ""
  {
    CroppedShown(v, table);
    assert Assignment(k, v, table) == k + ("=" + Shown(v, table));
    assert Assignment(k, Cropped(v), table) == k + ("=" + Shown(Cropped(v), table));
    TrimRightInside(k, "=" + Shown(v, table));
  }

  lemma {:induction false} FormatLocal(keys: seq<string>, a: Env, b: Env, table: char -> bool)
    requires forall k :: k in keys ==> k in a && k in b && a[k] == b[k]
    ensures FormatEnv(keys, a, table) == FormatEnv(keys, b, table)
  {
    if |keys| > 0 { assert keys[0] in keys; }
    if |keys| > 1 { FormatLocal(keys[1..], a, b, table); }
  }

  lemma {:induction false} TrimRightFormat(keys: seq<string>, m: Env, table: char -> bool)
    requires keys != [] && Distinct(keys) && CleanKeys(keys, m)
    ensures var cropped := m[LastKey(keys) := Cropped(m[LastKey(keys)])];
      TrimRight(FormatEnv(keys, m, table)) == FormatEnv(keys, cropped, table) != ""
    decreases |keys|
  {
    var k, last := keys[0], LastKey(keys);
    assert k in keys && last in keys;
    var cropped := m[last := Cropped(m[last])];
    if |keys| == 1 {
      CroppedAssignment(k, m[k], table);
    } else {
      assert LastKey(keys[1..]) == last && k != last;
      TrimRightFormat(keys[1..], m, table);
      var first := Assignment(k, m[k], table) + " ";
      TrimRightInside(first, FormatEnv(keys[1..], m, table));
    }
  }

  lemma {:induction false} FormatTrimmed(keys: seq<string>, m: Env, table: char -> bool)
    requires keys != [] && CleanKeys(keys, m) && EdgesHold(keys, m)
    ensures FormatEnv(keys, m, table) != "" && Trimmed(FormatEnv(keys, m, table))
  {
    assert keys[0] in keys;
    LastCharHolds(keys, m, table);
    assert (keys[0] + "=")[0] == if keys[0] == "" then '=' else keys[0][0];
    assert FormatEnv(keys, m, table)[0] == (keys[0] + "=")[0];
  }

  lemma {:induction false} LastCharHolds(keys: seq<string>, m: Env, table: char -> bool)
    requires keys != [] && CleanKeys(keys, m) && ValueHolds(m[LastKey(keys)])
    ensures var text := FormatEnv(keys, m, table); text != "" && !IsSpace(text[|text| - 1])
  {
    assert keys[0] in keys;
    if |keys| > 1 { LastCharHolds(keys[1..], m, table); }
  }

  // ---- A first key that lost characters is another key. ----

  lemma KeyedFirst(keys: seq<string>, st: Lexer, r: Result<seq<string>, CommandError>, toks: seq<string>)
    requires st.Between? && keys != [] && Tokenized(keys, st, r, toks)
    ensures KeyedBy(toks, keys)
  {
    KeyedCons(toks[0], toks[1..], keys);
    assert [toks[0]] + toks[1..] == toks;
  }

  /** Text whose first assignment is to k reads as tokens of k and the later keys. */
  lemma TokensOf(k: string, v: string, later: seq<string>, m: Env, table: char -> bool) returns (toks: seq<string>)
    requires CleanKey(k) && later != [] && CleanKeys(later, m)
    ensures Arguments(Assignment(k, v, table) + (" " + FormatEnv(later, m, table))) == Ok(toks) && KeyedBy(toks, [k] + later)
  {
    var keys := [k] + later;
    var (d, open) := ValueRead(v, table);
    var tail := FormatEnv(later, m, table);
    AssignmentThenBlank(k, v, tail, Between, table);
    assert keys[1..] == later;
    if open {
      var next := InArg(Reached(Between, k, d) + " ");
      toks := LexFormat(later, m, next, table);
      OpenTokens(keys, Between, d, Lex(tail, next), toks);
      KeyedFirst(keys, Between, Lex(tail, next), toks);
    } else {
      var more := LexFormat(later, m, Between, table);
      ClosedTokens(keys, Between, d, Lex(tail, Between), more);
      toks := [Reached(Between, k, d)] + more;
      KeyedFirst(keys, Between, Emit(Reached(Between, k, d), Lex(tail, Between)), toks);
    }
  }

  lemma TokenOfOne(k: string, v: string, table: char -> bool) returns (toks: seq<string>)
    requires CleanKey(k)
    ensures Arguments(Assignment(k, v, table)) == Ok(toks) && KeyedBy(toks, [k])
  {
    var m: Env := map[k := v];
    toks := LastToken(k, m, Between, table);
    KeyedFirst([k], Between, Lex(FormatEnv([k], m, table), Between), toks);
  }

  lemma TrimmedOnly(a: string, v: string, table: char -> bool)
    ensures TrimSpace(Assignment(a, v, table)) == Assignment(TrimLeft(a), Cropped(v), table)
  {
    var rest := "=" + Shown(v, table);
    assert Assignment(a, v, table) == a + rest && Assignment(TrimLeft(a), v, table) == TrimLeft(a) + rest;
    TrimLeftStops(a, rest);
    CroppedAssignment(TrimLeft(a), v, table);
  }

  lemma TrimLeftAssignment(a: string, v: string, rest: string, table: char -> bool)
    ensures TrimLeft(Assignment(a, v, table) + rest) == Assignment(TrimLeft(a), v, table) + rest
  {
    var all := ("=" + Shown(v, table)) + rest;
    assert Assignment(a, v, table) + rest == a + all && all[0] == '=';
    TrimLeftStops(a, all);
    assert TrimLeft(a) + all == Assignment(TrimLeft(a), v, table) + rest;
  }

  lemma TrimmedHead(a: string, v: string, tail: string, table: char -> bool)
    requires TrimRight(tail) != ""
    ensures TrimSpace(Assignment(a, v, table) + (" " + tail)) == Assignment(TrimLeft(a), v, table) + (" " + TrimRight(tail))
  {
    var first := Assignment(TrimLeft(a), v, table);
    TrimLeftAssignment(a, v, " " + tail, table);
    JoinAssoc(first, " ", tail);
    TrimRightInside(first + " ", tail);
    JoinAssoc(first, " ", TrimRight(tail));
  }

  /** The whole text, trimmed. */
  lemma TrimmedFirst(keys: seq<string>, m: Env, table: char -> bool)
    requires keys != [] && Distinct(keys) && CleanKeys(keys, m)
    ensures var k, last := TrimLeft(keys[0]), LastKey(keys);
      var cropped := m[last := Cropped(m[last])];
      TrimSpace(FormatEnv(keys, m, table)) ==
        if |keys| == 1 then Assignment(k, Cropped(m[last]), table)
        else Assignment(k, m[keys[0]], table) + (" " + FormatEnv(keys[1..], cropped, table))
  {
    var a := keys[0];
    assert a in keys;
    if |keys| == 1 {
      TrimmedOnly(a, m[a], table);
    } else {
      var tail := FormatEnv(keys[1..], m, table);
      assert LastKey(keys[1..]) == LastKey(keys);
      TrimRightFormat(keys[1..], m, table);
      JoinAssoc(Assignment(a, m[a], table), " ", tail);
      TrimmedHead(a, m[a], tail, table);
    }
  }

  lemma {:induction false} TrimLeftClean(k: string)
    requires CleanKey(k)
    ensures CleanKey(TrimLeft(k))
  {
    TrimLeftResult(k);
    var t := TrimLeft(k);
    forall c | c in t ensures c in k {
      var i :| 0 <= i < |t| && t[i] == c;
      assert k[|k| - |t| + i] == c;
    }
  }

  lemma TrimmedKeyLost(keys: seq<string>, m: Env, table: char -> bool)
    requires keys != [] && Distinct(keys) && CleanKeys(keys, m) && !FirstHolds(keys)
    ensures ParseEnv(TrimSpace(FormatEnv(keys, m, table))) != Ok(Restricted(keys, m))
  {
    var a, k := keys[0], TrimLeft(keys[0]);
    assert a in keys;
    TrimLeftClean(a);
    TrimmedFirst(keys, m, table);
    TrimLeftShorter(a);
    var cropped := m[LastKey(keys) := Cropped(m[LastKey(keys)])];
    var toks: seq<string>;
    if |keys| == 1 {
      toks := TokenOfOne(k, Cropped(m[a]), table);
      assert [k] + keys[1..] == [k];
    } else {
      toks := TokensOf(k, m[a], keys[1..], cropped, table);
    }
    OtherKeys(toks, [k] + keys[1..], a);
    assert a in Restricted(keys, m);
  }

  lemma {:induction false} TrimLeftShorter(a: string)
    requires a != "" && IsSpace(a[0])
    ensures |TrimLeft(a)| < |a|
  {
    TrimLeftResult(a[1..]);
  }

  lemma OtherKeys(toks: seq<string>, keys: seq<string>, a: string)
    requires KeyedBy(toks, keys) && (forall k :: k in keys ==> CleanKey(k)) && a !in keys
    ensures EnvOf(toks).Ok? && a !in EnvOf(toks).value
  {
    KeyedEnv(toks, keys);
  }

  // ---- A last value that lost characters is another value. ----

  lemma OneKey(k: string, l: string, t: string)
    requires CleanKey(k) && CleanKey(l) && k + "=" <= t && l + "=" <= t
    ensures k == l
  {
    CutAtKey(k, t);
    CutAtKey(l, t);
  }

  /** The token assigns `last` at most a value as long as the printed one. */
  predicate Short(t: string, last: string, v: string) { last + "=" <= t ==> |t| <= |last| + 1 + |v| }

  lemma OtherIsShort(t: string, k: string, last: string, v: string)
    requires CleanKey(k) && CleanKey(last) && k != last && k + "=" <= t
    ensures Short(t, last, v)
  {
    if last + "=" <= t { OneKey(k, last, t); }
  }

  lemma LastIsShort(k: string, m: Env, table: char -> bool, toks: seq<string>)
    requires k in m && CleanKey(k) && !NeedsQuote(m[k]) && Lex(FormatEnv([k], m, table), Between) == Ok(toks)
    ensures |toks| == 1 && Short(toks[0], k, m[k])
  {
    LexLast(k, m, Between, table);
    UnescapedLength(m[k]);
    ReachedFacts(Between, k, ValueRead(m[k], table).0);
  }

  /** Reading never makes an unquoted last value longer: for every token but one that continues what was
      read before. */
  lemma {:induction false} LastNeverGrows(keys: seq<string>, m: Env, st: Lexer, table: char -> bool, toks: seq<string>)
    requires keys != [] && Distinct(keys) && CleanKeys(keys, m) && !st.Quoted?
    requires !NeedsQuote(m[LastKey(keys)]) && Lex(FormatEnv(keys, m, table), st) == Ok(toks)
    ensures forall i :: (if st.Between? then 0 else 1) <= i < |toks| ==> Short(toks[i], LastKey(keys), m[LastKey(keys)])
    decreases |keys|
  {
    var k, last := keys[0], LastKey(keys);
    assert k in keys && last in keys;
    if |keys| == 1 {
      assert keys == [k];
      LexLast(k, m, st, table);
      if st.Between? { LastIsShort(k, m, table, toks); }
    } else {
      var all := LexFormat(keys, m, st, table);
      assert all == toks;
      if st.Between? { OtherIsShort(toks[0], k, last, m[last]); }
      LexFirst(keys, m, st, table);
      var (d, open) := ValueRead(m[k], table);
      var tail := FormatEnv(keys[1..], m, table);
      assert LastKey(keys[1..]) == last;
      if open {
        LastNeverGrows(keys[1..], m, InArg(Reached(st, k, d) + " "), table, toks);
      } else {
        var more := Lex(tail, Between).value;
        LastNeverGrows(keys[1..], m, Between, table, more);
        assert toks == [Reached(st, k, d)] + more;
        assert forall i :: 1 <= i < |toks| ==> toks[i] == more[i - 1];
      }
    }
  }

  lemma {:induction false} AssignedBy(toks: seq<string>, k: string) returns (i: nat)
    requires EnvOf(toks).Ok? && k in EnvOf(toks).value
    ensures i < |toks| && toks[i] == k + "=" + EnvOf(toks).value[k]
  {
    var (first, value) := Cut(toks[0], '=');
    var later := EnvOf(toks[1..]).value;
    if k in later {
      var j := AssignedBy(toks[1..], k);
      i := j + 1;
    } else {
      i := 0;
      assert toks[0] == first + ['='] + value.value;
    }
  }

  lemma {:induction false} TrimRightShorter(v: string)
    requires v != "" && IsSpace(v[|v| - 1])
    ensures |TrimRight(v)| < |v|
  {
    TrimRightResult(v[..|v| - 1]);
  }

  lemma CroppedReads(keys: seq<string>, m: Env, table: char -> bool)
    requires keys != [] && Distinct(keys) && CleanKeys(keys, m) && !NeedsQuote(m[LastKey(keys)])
    requires var r := ParseEnv(FormatEnv(keys, m, table)); r.Ok? && LastKey(keys) in r.value
    ensures |ParseEnv(FormatEnv(keys, m, table)).value[LastKey(keys)]| <= |m[LastKey(keys)]|
  {
    var last := LastKey(keys);
    var toks := Arguments(FormatEnv(keys, m, table)).value;
    LastNeverGrows(keys, m, Between, table, toks);
    var i := AssignedBy(toks, last);
    TooLong(toks[i], last, EnvOf(toks).value[last], m[last]);
  }

  lemma CroppedValueLost(keys: seq<string>, m: Env, cropped: string, table: char -> bool)
    requires keys != [] && Distinct(keys) && CleanKeys(keys, m) && !NeedsQuote(cropped) && |cropped| < |m[LastKey(keys)]|
    ensures ParseEnv(FormatEnv(keys, m[LastKey(keys) := cropped], table)) != Ok(Restricted(keys, m))
  {
    var last := LastKey(keys);
    assert last in keys && last in Restricted(keys, m);
    var r := ParseEnv(FormatEnv(keys, m[last := cropped], table));
    if r.Ok? && last in r.value { CroppedReads(keys, m[last := cropped], table); }
  }

  lemma TooLong(t: string, k: string, v: string, w: string)
    requires t == k + "=" + v && Short(t, k, w)
    ensures |v| <= |w|
  {
  }

  // ---- Exactly. ----

  /** The text of the field gives the environment back exactly when every value survives and trimming
      takes nothing off the first key or the last value. */
  lemma TrimmedRoundTripsExactly(keys: seq<string>, m: Env, table: char -> bool)
    requires keys != [] && Distinct(keys) && CleanKeys(keys, m)
    ensures ParseEnv(TrimSpace(FormatEnv(keys, m, table))) == Ok(Restricted(keys, m)) <==>
      AllSurvive(keys, m, table) && EdgesHold(keys, m)
  {
    assert LastKey(keys) in keys;
    if EdgesHold(keys, m) {
      FormatTrimmed(keys, m, table);
      TrimSpaceIdentity(FormatEnv(keys, m, table));
      EnvRoundTripsExactly(keys, m, table);
    } else if !FirstHolds(keys) {
      TrimmedKeyLost(keys, m, table);
    } else {
      TrimmedValueLost(keys, m, table);
    }
  }

  lemma TrimmedValueLost(keys: seq<string>, m: Env, table: char -> bool)
    requires keys != [] && Distinct(keys) && CleanKeys(keys, m) && FirstHolds(keys) && !ValueHolds(m[LastKey(keys)])
    ensures ParseEnv(TrimSpace(FormatEnv(keys, m, table))) != Ok(Restricted(keys, m))
  {
    var v := m[LastKey(keys)];
    FirstStays(keys, m, table);
    TrimRightFormat(keys, m, table);
    TrimRightShorter(v);
    TrimRightResult(v);
    assert forall c :: c in TrimRight(v) ==> c in v;
    CroppedValueLost(keys, m, TrimRight(v), table);
  }

  lemma FirstStays(keys: seq<string>, m: Env, table: char -> bool)
    requires keys != [] && CleanKeys(keys, m) && FirstHolds(keys)
    ensures TrimLeft(FormatEnv(keys, m, table)) == FormatEnv(keys, m, table)
  {
    assert keys[0] in keys;
    assert FormatEnv(keys, m, table)[0] == if keys[0] == "" then '=' else keys[0][0];
  }

  /** The trimmed text is not empty. */
  lemma TrimmedNotEmpty(keys: seq<string>, m: Env, table: char -> bool)
    requires keys != [] && Distinct(keys) && CleanKeys(keys, m)
    ensures TrimSpace(FormatEnv(keys, m, table)) != ""
  {
    assert keys[0] in keys;
    TrimmedFirst(keys, m, table);
  }

  lemma LetterReads(table: char -> bool)
    ensures ParseEnv(FormatEnv(["A"], map["A" := "a"], table)) == Ok(map["A" := "a"])
  {
    LexLast("A", map["A" := "a"], Between, table);
    UnescapedPlain("a");
    ReachedFacts(Between, "A", "a");
    OnlyEnv("A", "a");
  }

  /** A value that survives in the text and not in the field: its final line break is trimmed off. */
  lemma LineBreakIsLost(table: char -> bool)
    ensures Survives("a\n", true, table)
    ensures ParseEnv(TrimSpace(FormatEnv(["A"], map["A" := "a\n"], table))) == Ok(map["A" := "a"])
  {
    LetterReads(table);
    TrimmedFirst(["A"], map["A" := "a\n"], table);
    assert "a\n"[..1] == "a" && TrimRight("a\n") == "a" && TrimLeft("A") == "A";
  }
}
