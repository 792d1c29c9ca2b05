/** KEY=VALUE tokens: how an environment map is printed into the form and read back. */
module EnvTokens {
  import opened Options
  import opened Text
  import opened CommandLine

  type Env = map<string, string>

  // ---- Reading. ----

  function AddFirst(k: string, v: string, r: Result<Env, CommandError>): Result<Env, CommandError> {
    match r case Ok(later) => Ok(map[k := v] + later) case Err(e) => Err(e)
  }

  /** The assignments of the tokens; a later one of the same key wins. */
  function EnvOf(toks: seq<string>): Result<Env, CommandError> {
    if toks == [] then Ok(map[])
    else
      var (k, v) := Cut(toks[0], '=');
      match v
      case None => Err(NotKeyValue(toks[0]))
      case Some(value) => AddFirst(k, value, EnvOf(toks[1..]))
  }

  function ParseEnv(s: string): Result<Env, CommandError> {
    match Arguments(s) case Ok(toks) => EnvOf(toks) case Err(e) => Err(e)
  }

  lemma {:induction false} EnvOfSnoc(toks: seq<string>, k: string, v: string)
    requires EnvOf(toks).Ok? && '=' !in k
    ensures EnvOf(toks + [k + "=" + v]) == Ok(EnvOf(toks).value[k := v])
  {
    var tok := k + "=" + v;
    CutJoined(k, '=', v);
    assert k + ['='] + v == tok;
    if toks == [] {
      assert toks + [tok] == [tok] && [tok][1..] == [];
      assert map[k := v] + map[] == map[k := v];
    } else {
      assert (toks + [tok])[1..] == toks[1..] + [tok];
      EnvOfSnoc(toks[1..], k, v);
      var (first, value) := Cut(toks[0], '=');
      var later := EnvOf(toks[1..]).value;
      assert map[first := value.value] + later[k := v] == (map[first := value.value] + later)[k := v];
    }
  }

  lemma {:induction false} EnvOfFails(toks: seq<string>, tok: string, rest: seq<string>)
    requires EnvOf(toks).Ok? && Cut(tok, '=').1.None?
    ensures EnvOf(toks + [tok] + rest) == Err(NotKeyValue(tok))
  {
    if toks == [] {
      assert toks + [tok] + rest == [tok] + rest;
    } else {
      assert (toks + [tok] + rest)[1..] == toks[1..] + [tok] + rest;
      EnvOfFails(toks[1..], tok, rest);
    }
  }

  method ParseEnvTokens(s: string) returns (r: Result<Env, CommandError>)
    ensures r == ParseEnv(s)
  {
    var toks := ParseCommandLine(s);
    if toks.Err? {
      return Err(toks.error);
    }
    var env: Env := map[];
    for i := 0 to |toks.value|
      invariant EnvOf(toks.value[..i]) == Ok(env)
    {
      var tok := toks.value[i];
      assert toks.value[..i + 1] == toks.value[..i] + [tok];
      var (k, v) := Cut(tok, '=');
      if v.None? {
        EnvOfFails(toks.value[..i], tok, toks.value[i + 1..]);
        assert toks.value[..i] + [tok] + toks.value[i + 1..] == toks.value;
        return Err(NotKeyValue(tok));
      }
      EnvOfSnoc(toks.value[..i], k, v.value);
      env := env[k := v.value];
    }
    assert toks.value[..|toks.value|] == toks.value;
    return Ok(env);
  }

  // ---- Printing. ----

  /** strconv.IsPrint, over a table for the characters beyond ASCII. */
  predicate IsPrint(c: char, table: char -> bool) {
    if c <= '\U{7F}' then ' ' <= c < '\U{7F}' else table(c)
  }

  function HexDigit(n: nat): char
    requires n < 16
  {
    "0123456789abcdef"[n]
  }

  function Hex(n: nat, digits: nat): (h: string)
    ensures |h| == digits && '\\' !in h && '"' !in h
  {
    if digits == 0 then [] else Hex(n / 16, digits - 1) + [HexDigit(n % 16)]
  }

  /** The letter that stands for a control character after a backslash. */
  function ShortEscape(c: char): Option<char> {
    match c
    case '\U{7}' => Some('a')
    case '\U{8}' => Some('b')
    case '\U{C}' => Some('f')
    case '\n' => Some('n')
    case '\r' => Some('r')
    case '\t' => Some('t')
    case '\U{B}' => Some('v')
    case _ => None
  }

  /** The escape of a character that is not printable. */
  function ControlEscape(c: char): (e: string)
    ensures |e| >= 2 && e[0] == '\\' && e[1] != '"' && '"' !in e[2..] && '\\' !in e[2..]
    ensures e[1..] != [c]
  {
    match ShortEscape(c)
    case Some(letter) => ['\\', letter]
    case None =>
      if c < ' ' || c == '\U{7F}' then ['\\', 'x'] + Hex(c as int, 2)
      else if c < '\U{10000}' then ['\\', 'u'] + Hex(c as int, 4)
      else ['\\', 'U'] + Hex(c as int, 8)
  }

  /** How strconv.Quote writes one character. */
  function Escape(c: char, table: char -> bool): string {
    if c == '"' || c == '\\' then ['\\', c] else if IsPrint(c, table) then [c] else ControlEscape(c)
  }

  function Escaped(v: string, table: char -> bool): string {
    if v == [] then [] else Escape(v[0], table) + Escaped(v[1..], table)
  }

  function Quote(v: string, table: char -> bool): string { ['"'] + Escaped(v, table) + ['"'] }

  predicate NeedsQuote(v: string) { ' ' in v || '\t' in v || '"' in v || '\'' in v }

  function Shown(v: string, table: char -> bool): string { if NeedsQuote(v) then Quote(v, table) else v }

  function Assignment(k: string, v: string, table: char -> bool): string { k + "=" + Shown(v, table) }

  function FormatEnv(keys: seq<string>, m: Env, table: char -> bool): string
    requires forall k :: k in keys ==> k in m
  {
    if keys == [] then ""
    else
      var first := Assignment(keys[0], m[keys[0]], table);
      if |keys| == 1 then first else first + " " + FormatEnv(keys[1..], m, table)
  }

  method FormatEnvTokens(keys: seq<string>, m: Env, table: char -> bool) returns (r: string)
    requires forall k :: k in keys ==> k in m
    ensures r == FormatEnv(keys, m, table)
  {
    var toks: seq<string> := [];
    for i := 0 to |keys|
      invariant |toks| == i && forall j :: 0 <= j < i ==> toks[j] == Assignment(keys[j], m[keys[j]], table)
    {
      var val := m[keys[i]];
      if NeedsQuote(val) {
        val := Quote(val, table);
      }
      toks := toks + [keys[i] + "=" + val];
    }
    FormatIsJoin(keys, m, table, toks);
    return Join(toks, " ");
  }

  lemma {:induction false} FormatIsJoin(keys: seq<string>, m: Env, table: char -> bool, toks: seq<string>)
    requires forall k :: k in keys ==> k in m
    requires |toks| == |keys| && forall j :: 0 <= j < |keys| ==> toks[j] == Assignment(keys[j], m[keys[j]], table)
    ensures FormatEnv(keys, m, table) == Join(toks, " ")
  {
    if |keys| > 1 { FormatIsJoin(keys[1..], m, table, toks[1..]); }
  }

  // ---- What the tokenizer makes of printed text. ----

  predicate PlainChar(c: char) { !Blank(c) && !QuoteMark(c) && c != '\\' }

  predicate CleanKey(k: string) { '=' !in k && forall c :: c in k ==> PlainChar(c) }

  lemma {:induction false} LexPlain(a: string, rest: string, st: Lexer)
    requires !st.Quoted? && a != "" && forall c :: c in a ==> PlainChar(c)
    ensures Lex(a + rest, st) == Lex(rest, InArg(st.Cur() + a))
    decreases |a|
  {
    assert a[0] in a && (a + rest)[1..] == a[1..] + rest;
    assert st.Cur() + [a[0]] + a[1..] == st.Cur() + a;
    if |a| == 1 {
      assert a[1..] + rest == rest && a == [a[0]];
    } else {
      LexPlain(a[1..], rest, InArg(st.Cur() + [a[0]]));
    }
  }

  /** What one escaped character reads back as. */
  function Reread(c: char, table: char -> bool): string {
    if Escape(c, table)[0] == '\\' then Escape(c, table)[1..] else Escape(c, table)
  }

  function RereadAll(v: string, table: char -> bool): string {
    if v == [] then [] else Reread(v[0], table) + RereadAll(v[1..], table)
  }

  lemma {:induction false} LexInside(a: string, rest: string, cur: string)
    requires forall c :: c in a ==> c != '"' && c != '\\'
    ensures Lex(a + rest, Quoted(cur, '"')) == Lex(rest, Quoted(cur + a, '"'))
    decreases |a|
  {
    if a == [] {
      assert a + rest == rest && cur + a == cur;
    } else {
      assert a[0] in a && (a + rest)[1..] == a[1..] + rest && cur + [a[0]] + a[1..] == cur + a;
      forall c | c in a[1..] ensures c in a {}
      LexInside(a[1..], rest, cur + [a[0]]);
    }
  }

  lemma LexBackslash(c: char, tail: string, rest: string, cur: string)
    requires forall x :: x in tail ==> x != '"' && x != '\\'
    ensures Lex(['\\', c] + tail + rest, Quoted(cur, '"')) == Lex(rest, Quoted(cur + ([c] + tail), '"'))
  {
    var s := ['\\', c] + tail + rest;
    assert s[2..] == tail + rest;
    LexInside(tail, rest, cur + [c]);
    assert cur + [c] + tail == cur + ([c] + tail);
  }

  lemma LexEscape(c: char, rest: string, cur: string, table: char -> bool)
    ensures Lex(Escape(c, table) + rest, Quoted(cur, '"')) == Lex(rest, Quoted(cur + Reread(c, table), '"'))
  {
    var e := Escape(c, table);
    if c == '"' || c == '\\' {
      assert e == ['\\', c] + [] && e[1..] == [c] + [];
      LexBackslash(c, [], rest, cur);
    } else if IsPrint(c, table) {
      LexInside(e, rest, cur);
    } else {
      var tail := e[2..];
      assert e == ['\\', e[1]] + tail && e[1..] == [e[1]] + tail;
      LexBackslash(e[1], tail, rest, cur);
    }
  }

  lemma JoinAssoc(a: string, b: string, c: string)
    ensures a + b + c == a + (b + c)
  {
  }

  lemma {:induction false} LexEscaped(v: string, rest: string, cur: string, table: char -> bool)
    ensures Lex(Escaped(v, table) + rest, Quoted(cur, '"')) == Lex(rest, Quoted(cur + RereadAll(v, table), '"'))
    decreases |v|
  {
    if v == [] {
      assert [] + rest == rest && cur + [] == cur;
    } else {
      JoinAssoc(Escape(v[0], table), Escaped(v[1..], table), rest);
      LexEscape(v[0], Escaped(v[1..], table) + rest, cur, table);
      LexEscaped(v[1..], rest, cur + Reread(v[0], table), table);
      JoinAssoc(cur, Reread(v[0], table), RereadAll(v[1..], table));
    }
  }

  lemma LexQuoteMarks(s: string, cur: string)
    ensures Lex(['"'] + s, InArg(cur)) == Lex(s, Quoted(cur, '"'))
    ensures Lex(['"'] + s, Quoted(cur, '"')) == Lex(s, InArg(cur))
  {
    assert (['"'] + s)[1..] == s;
  }

  lemma LexQuotation(v: string, rest: string, cur: string, table: char -> bool)
    ensures Lex(Quote(v, table) + rest, InArg(cur)) == Lex(rest, InArg(cur + RereadAll(v, table)))
  {
    var e, close := Escaped(v, table), ['"'] + rest;
    assert Quote(v, table) + rest == ['"'] + (e + close);
    LexQuoteMarks(e + close, cur);
    LexEscaped(v, close, cur, table);
    LexQuoteMarks(rest, cur + RereadAll(v, table));
  }

  /** Unquoted text with its backslashes taken as escapes, and whether its last one escapes what follows. */
  function Unescaped(v: string): (r: (string, bool)) {
    if v == [] then ([], false)
    else if v[0] == '\\' then
      if |v| == 1 then ([], true)
      else var (d, open) := Unescaped(v[2..]); ([v[1]] + d, open)
    else var (d, open) := Unescaped(v[1..]); ([v[0]] + d, open)
  }

  lemma {:induction false} LexUnquoted(v: string, rest: string, cur: string)
    requires !NeedsQuote(v)
    ensures var (d, open) := Unescaped(v);
      Lex(v + rest, InArg(cur)) ==
        if !open then Lex(rest, InArg(cur + d))
        else if rest == "" then Ok([cur + d + "\\"])
        else Lex(rest[1..], InArg(cur + d + [rest[0]]))
    decreases |v|
  {
    if v == [] {
      assert v + rest == rest && cur + [] == cur;
    } else if v[0] == '\\' {
      if |v| == 1 {
        assert v + rest == ['\\'] + rest && cur + [] == cur;
        if rest != "" {
          assert (v + rest)[2..] == rest[1..];
        } else {
          assert v + rest == "\\" && (v + rest)[1..] == [];
        }
      } else {
        assert (v + rest)[2..] == v[2..] + rest;
        LexUnquoted(v[2..], rest, cur + [v[1]]);
        var (d, open) := Unescaped(v[2..]);
        assert cur + [v[1]] + d == cur + ([v[1]] + d);
      }
    } else {
      assert (v + rest)[1..] == v[1..] + rest;
      LexUnquoted(v[1..], rest, cur + [v[0]]);
      var (d, open) := Unescaped(v[1..]);
      assert cur + [v[0]] + d == cur + ([v[0]] + d);
    }
  }

  // ---- When the round trip holds. ----

  /** Quoting writes the value in a way the tokenizer undoes. */
  predicate QuoteKeeps(v: string, table: char -> bool) {
    forall c :: c in v ==> c == '"' || c == '\\' || IsPrint(c, table)
  }

  /** The value's own condition; the last value of all may end in a backslash that escapes nothing. */
  predicate Survives(v: string, last: bool, table: char -> bool) {
    if NeedsQuote(v) then QuoteKeeps(v, table)
    else '\\' !in if last && v != "" then v[..|v| - 1] else v
  }

  lemma RereadLength(c: char, table: char -> bool)
    ensures Reread(c, table) != ""
    ensures Reread(c, table) == [c] <==> c == '"' || c == '\\' || IsPrint(c, table)
    ensures |Reread(c, table)| == 1 ==> Reread(c, table) == [c] || Reread(c, table)[0] != c
  {
  }

  lemma {:induction false} RereadKeepsExactly(v: string, table: char -> bool)
    ensures RereadAll(v, table) == v <==> QuoteKeeps(v, table)
    ensures |RereadAll(v, table)| >= |v|
  {
    if v != [] {
      RereadKeepsExactly(v[1..], table);
      RereadLength(v[0], table);
      assert v == [v[0]] + v[1..];
      var r, rest := Reread(v[0], table), RereadAll(v[1..], table);
      if RereadAll(v, table) == v {
        assert |r| == 1;
        assert (r + rest)[0] == v[0] && (r + rest)[1..] == rest;
      }
    }
  }

  lemma {:induction false} UnescapedPlain(v: string)
    requires '\\' !in v
    ensures Unescaped(v) == (v, false) && Unescaped(v + "\\") == (v, true)
  {
    if v != [] {
      UnescapedPlain(v[1..]);
      assert (v + "\\")[1..] == v[1..] + "\\";
      assert [v[0]] + v[1..] == v;
    }
  }

  /** Unescaping never lengthens, and keeps the length only of text without a backslash to take. */
  lemma {:induction false} UnescapedLength(v: string)
    ensures var (d, open) := Unescaped(v);
      && |d| + (if open then 1 else 0) <= |v|
      && (open ==> v != "" && v[|v| - 1] == '\\')
      && (!open && |d| == |v| ==> '\\' !in v)
      && (open && |d| + 1 == |v| ==> '\\' !in v[..|v| - 1])
    decreases |v|
  {
    if v != [] {
      if v[0] != '\\' {
        UnescapedLength(v[1..]);
        assert v[1..] != "" ==> v[..|v| - 1] == [v[0]] + v[1..][..|v| - 2];
      } else if |v| > 1 {
        UnescapedLength(v[2..]);
      }
    }
  }

  lemma EndsInBackslash(v: string, w: string)
    requires v != "" && '\\' in v && '\\' !in w && w == v[..|v| - 1]
    ensures w + "\\" == v
  {
    assert forall j :: 0 <= j < |w| ==> v[j] == w[j] && w[j] != '\\';
    var i :| 0 <= i < |v| && v[i] == '\\';
    assert i == |w|;
  }

  lemma LoneFinalBackslash(v: string)
    requires v != "" && '\\' in v && '\\' !in v[..|v| - 1]
    ensures Unescaped(v) == (v[..|v| - 1], true) && v[..|v| - 1] + "\\" == v
  {
    var w := v[..|v| - 1];
    EndsInBackslash(v, w);
    UnescapedPlain(w);
  }

  /** An unquoted value before a blank is read as itself exactly when it has no backslash. */
  lemma UnquotedInside(v: string)
    ensures !Unescaped(v).1 && Unescaped(v).0 == v <==> '\\' !in v
  {
    UnescapedLength(v);
    if '\\' !in v { UnescapedPlain(v); }
  }

  /** At the very end a last backslash may stand for itself. */
  lemma UnquotedAtEnd(v: string)
    requires v != ""
    ensures var (d, open) := Unescaped(v);
      (if open then d + "\\" else d) == v <==> '\\' !in v[..|v| - 1]
  {
    UnescapedLength(v);
    if '\\' !in v {
      UnescapedPlain(v);
    } else if '\\' !in v[..|v| - 1] {
      LoneFinalBackslash(v);
    }
  }

  /** The state in which the tokenizer leaves a printed value. */
  function ValueRead(v: string, table: char -> bool): (string, bool) {
    if NeedsQuote(v) then (RereadAll(v, table), false) else Unescaped(v)
  }

  lemma LexAssignment(k: string, v: string, rest: string, st: Lexer, table: char -> bool)
    requires CleanKey(k) && !st.Quoted?
    ensures var (d, open) := ValueRead(v, table);
      var cur := st.Cur() + k + "=";
      Lex(Assignment(k, v, table) + rest, st) ==
        if !open then Lex(rest, InArg(cur + d))
        else if rest == "" then Ok([cur + d + "\\"])
        else Lex(rest[1..], InArg(cur + d + [rest[0]]))
  {
    var shown := Shown(v, table);
    assert Assignment(k, v, table) + rest == (k + "=") + (shown + rest);
    LexPlain(k + "=", shown + rest, st);
    assert st.Cur() + (k + "=") == st.Cur() + k + "=";
    if NeedsQuote(v) {
      LexQuotation(v, rest, st.Cur() + k + "=", table);
    } else {
      LexUnquoted(v, rest, st.Cur() + k + "=");
    }
  }

  /** Every token starts with one of the keys and an equals sign. */
  ghost predicate Keyed(t: string, keys: seq<string>) { exists k :: k in keys && k + "=" <= t }

  ghost predicate KeyedBy(toks: seq<string>, keys: seq<string>) { forall t :: t in toks ==> Keyed(t, keys) }

  lemma KeyedLater(toks: seq<string>, keys: seq<string>)
    requires keys != [] && KeyedBy(toks, keys[1..])
    ensures KeyedBy(toks, keys)
  {
    forall t | t in toks ensures Keyed(t, keys) {
      var x :| x in keys[1..] && x + "=" <= t;
      assert x in keys;
    }
  }

  lemma KeyedCons(t: string, toks: seq<string>, keys: seq<string>)
    requires keys != [] && keys[0] + "=" <= t && KeyedBy(toks, keys[1..])
    ensures KeyedBy([t] + toks, keys)
  {
    KeyedLater(toks, keys);
    assert keys[0] in keys && Keyed(t, keys);
  }

  /** The argument after key and value are read. */
  function Reached(st: Lexer, k: string, d: string): string { st.Cur() + (k + "=" + d) }

  lemma ReachedFacts(st: Lexer, k: string, d: string)
    ensures st.Cur() <= Reached(st, k, d) && Reached(st, k, d) == st.Cur() + k + "=" + d
    ensures st.Between? ==> Reached(st, k, d) == k + "=" + d && k + "=" <= Reached(st, k, d)
  {
    assert st.Cur() + (k + "=" + d) == st.Cur() + k + "=" + d;
    assert k + "=" + d == (k + "=") + d;
  }

  lemma AssignmentThenBlank(k: string, v: string, tail: string, st: Lexer, table: char -> bool)
    requires CleanKey(k) && !st.Quoted?
    ensures var (d, open) := ValueRead(v, table);
      var cur := Reached(st, k, d);
      Lex(Assignment(k, v, table) + (" " + tail), st) == if open then Lex(tail, InArg(cur + " ")) else Emit(cur, Lex(tail, Between))
  {
    var rest := " " + tail;
    assert rest[1..] == tail && rest[0] == ' ';
    LexAssignment(k, v, rest, st, table);
    ReachedFacts(st, k, ValueRead(v, table).0);
  }

  /** Reading the first assignment, and what is left to read. */
  lemma LexFirst(keys: seq<string>, m: Env, st: Lexer, table: char -> bool)
    requires |keys| > 1 && !st.Quoted? && forall k :: k in keys ==> k in m && CleanKey(k)
    ensures var (d, open) := ValueRead(m[keys[0]], table);
      var cur, tail := Reached(st, keys[0], d), FormatEnv(keys[1..], m, table);
      Lex(FormatEnv(keys, m, table), st) == if open then Lex(tail, InArg(cur + " ")) else Emit(cur, Lex(tail, Between))
  {
    var k := keys[0];
    assert k in keys;
    JoinAssoc(Assignment(k, m[k], table), " ", FormatEnv(keys[1..], m, table));
    AssignmentThenBlank(k, m[k], FormatEnv(keys[1..], m, table), st, table);
  }

  lemma LexLast(k: string, m: Env, st: Lexer, table: char -> bool)
    requires !st.Quoted? && k in m && CleanKey(k)
    ensures var (d, open) := ValueRead(m[k], table);
      var cur := Reached(st, k, d);
      Lex(FormatEnv([k], m, table), st) == Ok([if open then cur + "\\" else cur])
  {
    LexAssignment(k, m[k], "", st, table);
    ReachedFacts(st, k, ValueRead(m[k], table).0);
    assert Assignment(k, m[k], table) + "" == FormatEnv([k], m, table);
  }

  /** Tokens the printed text reads as: the first continues what was already read. */
  ghost predicate Tokenized(keys: seq<string>, st: Lexer, r: Result<seq<string>, CommandError>, toks: seq<string>)
    requires keys != []
  {
    && r == Ok(toks) && toks != [] && st.Cur() <= toks[0]
    && (st.Between? ==> keys[0] + "=" <= toks[0]) && KeyedBy(toks[1..], keys[1..])
  }

  lemma Longer(st: Lexer, k: string, d: string, more: string)
    ensures var t := Reached(st, k, d) + more; st.Cur() <= t && (st.Between? ==> k + "=" <= t)
  {
    ReachedFacts(st, k, d);
  }

  lemma PrefixOf(a: string, b: string, c: string)
    requires a <= b <= c
    ensures a <= c
  {
  }

  /** The first value ends in an open escape: its token goes on into the next assignment. */
  lemma OpenTokens(keys: seq<string>, st: Lexer, d: string, r: Result<seq<string>, CommandError>, toks: seq<string>)
    requires |keys| > 1 && Tokenized(keys[1..], InArg(Reached(st, keys[0], d) + " "), r, toks)
    ensures Tokenized(keys, st, r, toks)
  {
    Longer(st, keys[0], d, " ");
    PrefixOf(st.Cur(), Reached(st, keys[0], d) + " ", toks[0]);
    if st.Between? { PrefixOf(keys[0] + "=", Reached(st, keys[0], d) + " ", toks[0]); }
    KeyedLater(toks[1..], keys[1..]);
  }

  lemma ClosedTokens(keys: seq<string>, st: Lexer, d: string, r: Result<seq<string>, CommandError>, more: seq<string>)
    requires |keys| > 1 && Tokenized(keys[1..], Between, r, more)
    ensures Tokenized(keys, st, Emit(Reached(st, keys[0], d), r), [Reached(st, keys[0], d)] + more)
  {
    Longer(st, keys[0], d, "");
    assert Reached(st, keys[0], d) + "" == Reached(st, keys[0], d);
    KeyedCons(more[0], more[1..], keys[1..]);
    assert [more[0]] + more[1..] == more;
    assert ([Reached(st, keys[0], d)] + more)[1..] == more;
  }

  lemma LastToken(k: string, m: Env, st: Lexer, table: char -> bool) returns (toks: seq<string>)
    requires !st.Quoted? && k in m && CleanKey(k)
    ensures Tokenized([k], st, Lex(FormatEnv([k], m, table), st), toks)
  {
    var (d, open) := ValueRead(m[k], table);
    var cur := Reached(st, k, d);
    LexLast(k, m, st, table);
    toks := [if open then cur + "\\" else cur];
    Longer(st, k, d, "\\");
    Longer(st, k, d, "");
    assert cur + "" == cur;
  }

  /** Whatever the values, the printed text reads as tokens that start with the printed keys; the
      first continues what was already read. */
  lemma {:induction false} LexFormat(keys: seq<string>, m: Env, st: Lexer, table: char -> bool) returns (toks: seq<string>)
    requires keys != [] && !st.Quoted? && forall k :: k in keys ==> k in m && CleanKey(k)
    ensures Tokenized(keys, st, Lex(FormatEnv(keys, m, table), st), toks)
    decreases |keys|
  {
    assert keys[0] in keys;
    if |keys| == 1 {
      assert keys == [keys[0]];
      toks := LastToken(keys[0], m, st, table);
    } else {
      var (d, open) := ValueRead(m[keys[0]], table);
      LexFirst(keys, m, st, table);
      var tail := FormatEnv(keys[1..], m, table);
      if open {
        var next := InArg(Reached(st, keys[0], d) + " ");
        toks := LexFormat(keys[1..], m, next, table);
        OpenTokens(keys, st, d, Lex(tail, next), toks);
      } else {
        var more := LexFormat(keys[1..], m, Between, table);
        ClosedTokens(keys, st, d, Lex(tail, Between), more);
        toks := [Reached(st, keys[0], d)] + more;
      }
    }
  }

  // ---- The round trip, exactly. ----

  /** What is left of m for the given keys. */
  function Restricted(keys: seq<string>, m: Env): Env
    requires forall k :: k in keys ==> k in m
  {
    map k | k in keys :: m[k]
  }

  predicate AllSurvive(keys: seq<string>, m: Env, table: char -> bool)
    requires forall k :: k in keys ==> k in m
  {
    forall i :: 0 <= i < |keys| ==> Survives(m[keys[i]], i == |keys| - 1, table)
  }

  lemma {:induction false} KeyedEnv(toks: seq<string>, keys: seq<string>)
    requires KeyedBy(toks, keys) && forall k :: k in keys ==> CleanKey(k)
    ensures EnvOf(toks).Ok? && EnvOf(toks).value.Keys <= set k | k in keys
  {
    if toks != [] {
      assert toks[0] in toks && Keyed(toks[0], keys);
      var k :| k in keys && k + "=" <= toks[0];
      CutAtKey(k, toks[0]);
      KeyedEnv(toks[1..], keys);
    }
  }

  lemma CutAtKey(k: string, t: string)
    requires '=' !in k && k + "=" <= t
    ensures Cut(t, '=') == (k, Some(t[|k| + 1..]))
  {
    CutJoined(k, '=', t[|k| + 1..]);
    assert k + ['='] + t[|k| + 1..] == t;
  }

  /** A value in front of others is read as itself exactly when it survives there. */
  lemma ValueReadExactly(v: string, table: char -> bool)
    ensures ValueRead(v, table) == (v, false) <==> Survives(v, false, table)
    ensures ValueRead(v, table).1 ==> ' ' !in v
  {
    if NeedsQuote(v) { RereadKeepsExactly(v, table); } else { UnquotedInside(v); }
  }

  lemma LastReadExactly(v: string, table: char -> bool)
    ensures var (d, open) := ValueRead(v, table);
      (if open then d + "\\" else d) == v <==> Survives(v, true, table)
  {
    if NeedsQuote(v) { RereadKeepsExactly(v, table); } else if v != "" { UnquotedAtEnd(v); }
  }

  lemma OnlyEnv(k: string, v: string)
    requires '=' !in k
    ensures EnvOf([k + "=" + v]) == Ok(map[k := v])
  {
    CutAtKey(k, k + "=" + v);
    assert [k + "=" + v][1..] == [] && EnvOf([]) == Ok(map[]);
    assert map[k := v] + map[] == map[k := v];
  }

  lemma OneRoundTrips(k: string, m: Env, table: char -> bool)
    requires k in m && CleanKey(k)
    ensures ParseEnv(FormatEnv([k], m, table)) == Ok(map[k := m[k]]) <==> Survives(m[k], true, table)
  {
    var (d, open) := ValueRead(m[k], table);
    var got := if open then d + "\\" else d;
    LexLast(k, m, Between, table);
    ReachedFacts(Between, k, d);
    assert (if open then k + "=" + d + "\\" else k + "=" + d) == k + "=" + got;
    OnlyEnv(k, got);
    LastReadExactly(m[k], table);
    assert map[k := got][k] == got;
  }

  /** Tokens of which the first assigns `got` to k and no later one assigns k. */
  lemma FirstAssigns(k: string, got: string, toks: seq<string>, keys: seq<string>)
    requires CleanKey(k) && k !in keys && KeyedBy(toks, keys) && forall x :: x in keys ==> CleanKey(x)
    ensures EnvOf(toks).Ok? && k !in EnvOf(toks).value
    ensures EnvOf([k + "=" + got] + toks) == Ok(map[k := got] + EnvOf(toks).value)
  {
    KeyedEnv(toks, keys);
    CutAtKey(k, k + "=" + got);
    assert ([k + "=" + got] + toks)[1..] == toks;
  }

  lemma AgreesExactly(k: string, got: string, v: string, later: Env, rest: Env)
    requires k !in later && k !in rest
    ensures map[k := got] + later == map[k := v] + rest <==> got == v && later == rest
  {
    var a, b := map[k := got] + later, map[k := v] + rest;
    assert a[k] == got && b[k] == v;
    assert a - {k} == later && b - {k} == rest;
  }

  lemma SplitOffKey(k: string, d: string, t: string)
    requires Reached(Between, k, d) + " " <= t
    ensures k + "=" <= t && t == k + "=" + t[|k| + 1..] && ' ' in t[|k| + 1..]
  {
    var head, n := Reached(Between, k, d) + " ", |k| + 1 + |d|;
    assert head == (k + "=") + (d + " ");
    assert head[|k| + 1..] == d + " ";
    assert k + "=" == head[..|k| + 1] == t[..|k| + 1];
    assert t[n] == head[n] == ' ';
    assert t[|k| + 1..][|d|] == t[n];
  }

  lemma SwallowingTokens(keys: seq<string>, m: Env, table: char -> bool, d: string) returns (all: seq<string>)
    requires |keys| > 1 && forall k :: k in keys ==> k in m && CleanKey(k)
    requires ValueRead(m[keys[0]], table) == (d, true)
    ensures Arguments(FormatEnv(keys, m, table)) == Ok(all) && all != []
    ensures Reached(Between, keys[0], d) + " " <= all[0] && KeyedBy(all[1..], keys[1..])
  {
    LexFirst(keys, m, Between, table);
    all := LexFormat(keys[1..], m, InArg(Reached(Between, keys[0], d) + " "), table);
    KeyedLater(all[1..], keys[1..]);
  }

  /** A first value that ends in an open escape takes the blank after it. */
  lemma SwallowedToken(keys: seq<string>, m: Env, table: char -> bool) returns (got: string, toks: seq<string>)
    requires |keys| > 1 && forall k :: k in keys ==> k in m && CleanKey(k)
    requires ValueRead(m[keys[0]], table).1
    ensures Arguments(FormatEnv(keys, m, table)) == Ok([keys[0] + "=" + got] + toks)
    ensures got != m[keys[0]] && KeyedBy(toks, keys[1..])
  {
    var k := keys[0];
    assert k in keys;
    var d := ValueRead(m[k], table).0;
    ValueReadExactly(m[k], table);
    var all := SwallowingTokens(keys, m, table, d);
    SplitOffKey(k, d, all[0]);
    got, toks := all[0][|k| + 1..], all[1..];
    assert [all[0]] + toks == all;
  }

  /** Text whose first value swallowed the blank after it assigns that key something else. */
  lemma SwallowedBlank(keys: seq<string>, m: Env, table: char -> bool)
    requires |keys| > 1 && forall k :: k in keys ==> k in m && CleanKey(k)
    requires forall i, j :: 0 <= i < j < |keys| ==> keys[i] != keys[j]
    requires ValueRead(m[keys[0]], table).1
    ensures ParseEnv(FormatEnv(keys, m, table)) != Ok(Restricted(keys, m))
  {
    var k := keys[0];
    var got, toks := SwallowedToken(keys, m, table);
    FirstAssigns(k, got, toks, keys[1..]);
    assert (map[k := got] + EnvOf(toks).value)[k] == got;
    assert k in keys && Restricted(keys, m)[k] == m[k];
  }

  /** Printing an environment and reading it back gives the same environment exactly when every value
      survives, in whatever order the keys are printed. */
  lemma {:induction false} EnvRoundTripsExactly(keys: seq<string>, m: Env, table: char -> bool)
    requires forall k :: k in keys ==> k in m && CleanKey(k)
    requires forall i, j :: 0 <= i < j < |keys| ==> keys[i] != keys[j]
    ensures ParseEnv(FormatEnv(keys, m, table)) == Ok(Restricted(keys, m)) <==> AllSurvive(keys, m, table)
    decreases |keys|
  {
    if keys == [] {
      assert Restricted(keys, m) == map[];
    } else if |keys| == 1 {
      assert keys[0] in keys && keys == [keys[0]];
      assert Restricted(keys, m) == map[keys[0] := m[keys[0]]];
      OneRoundTrips(keys[0], m, table);
    } else {
      assert keys[0] in keys;
      AllSurviveStep(keys, m, table);
      ValueReadExactly(m[keys[0]], table);
      if ValueRead(m[keys[0]], table).1 {
        SwallowedBlank(keys, m, table);
      } else {
        EnvRoundTripsExactly(keys[1..], m, table);
        RoundTripStep(keys, m, table);
      }
    }
  }

  lemma TokensSplit(keys: seq<string>, m: Env, table: char -> bool) returns (more: seq<string>)
    requires |keys| > 1 && forall k :: k in keys ==> k in m && CleanKey(k)
    requires !ValueRead(m[keys[0]], table).1
    ensures Arguments(FormatEnv(keys, m, table)) == Ok([keys[0] + "=" + ValueRead(m[keys[0]], table).0] + more)
    ensures Arguments(FormatEnv(keys[1..], m, table)) == Ok(more) && KeyedBy(more, keys[1..])
  {
    assert keys[0] in keys;
    var d := ValueRead(m[keys[0]], table).0;
    LexFirst(keys, m, Between, table);
    ReachedFacts(Between, keys[0], d);
    more := LexFormat(keys[1..], m, Between, table);
    KeyedCons(more[0], more[1..], keys[1..]);
    assert [more[0]] + more[1..] == more;
  }

  lemma RestrictedCons(keys: seq<string>, m: Env)
    requires keys != [] && forall k :: k in keys ==> k in m
    ensures Restricted(keys, m) == map[keys[0] := m[keys[0]]] + Restricted(keys[1..], m)
  {
    assert forall k :: k in keys <==> k == keys[0] || k in keys[1..];
  }

  lemma RoundTripStep(keys: seq<string>, m: Env, table: char -> bool)
    requires |keys| > 1 && forall k :: k in keys ==> k in m && CleanKey(k)
    requires forall i, j :: 0 <= i < j < |keys| ==> keys[i] != keys[j]
    requires !ValueRead(m[keys[0]], table).1
    ensures ParseEnv(FormatEnv(keys, m, table)) == Ok(Restricted(keys, m)) <==>
      ValueRead(m[keys[0]], table).0 == m[keys[0]] && ParseEnv(FormatEnv(keys[1..], m, table)) == Ok(Restricted(keys[1..], m))
  {
    var k, d := keys[0], ValueRead(m[keys[0]], table).0;
    assert k in keys && k !in keys[1..];
    var more := TokensSplit(keys, m, table);
    RestrictedCons(keys, m);
    ReadStep(FormatEnv(keys, m, table), FormatEnv(keys[1..], m, table), k, d, m[k], more, keys[1..], Restricted(keys[1..], m));
  }

  lemma ReadStep(text: string, tail: string, k: string, got: string, v: string, more: seq<string>, keys: seq<string>, rest: Env)
    requires CleanKey(k) && k !in keys && k !in rest && KeyedBy(more, keys) && forall x :: x in keys ==> CleanKey(x)
    requires Arguments(text) == Ok([k + "=" + got] + more) && Arguments(tail) == Ok(more)
    ensures ParseEnv(text) == Ok(map[k := v] + rest) <==> got == v && ParseEnv(tail) == Ok(rest)
  {
    FirstAssigns(k, got, more, keys);
    AgreesExactly(k, got, v, EnvOf(more).value, rest);
  }

  lemma AllSurviveStep(keys: seq<string>, m: Env, table: char -> bool)
    requires keys != [] && forall k :: k in keys ==> k in m
    ensures AllSurvive(keys, m, table) <==>
      Survives(m[keys[0]], |keys| == 1, table) && AllSurvive(keys[1..], m, table)
  {
    forall i | 1 <= i < |keys|
      ensures Survives(m[keys[i]], i == |keys| - 1, table) <==> Survives(m[keys[1..][i - 1]], i - 1 == |keys[1..]| - 1, table)
    {
    }
    if AllSurvive(keys[1..], m, table) {
      forall i | 1 <= i < |keys| ensures Survives(m[keys[i]], i == |keys| - 1, table) {
        assert Survives(m[keys[1..][i - 1]], i - 1 == |keys[1..]| - 1, table);
      }
    }
  }

  lemma BackslashTaken()
    ensures Unescaped("a\\b") == ("ab", false) && !NeedsQuote("a\\b")
  {
    assert "a\\b"[1..] == "\\b" && "\\b"[2..] == [] && Unescaped([]) == ([], false);
    assert "\\b"[1] == 'b' && ['b'] + [] == "b" && Unescaped("\\b") == ("b", false);
    assert ['a'] + "b" == "ab";
  }

  /** A value that does not survive: the backslash is taken as an escape. */
  lemma BackslashIsLost(table: char -> bool)
    ensures ParseEnv(FormatEnv(["A"], map["A" := "a\\b"], table)) == Ok(map["A" := "ab"])
  {
    var m: Env := map["A" := "a\\b"];
    BackslashTaken();
    LexLast("A", m, Between, table);
    ReachedFacts(Between, "A", "ab");
    OnlyEnv("A", "ab");
  }

  // ---- What a value is printed as. ----

  /** A value without blanks, tabs and quotes is printed as it is, any other in double quotes. */
  lemma ShownExactly(v: string, table: char -> bool)
    ensures (forall c :: c in v ==> c != ' ' && c != '\t' && c != '"' && c != '\'') ==> Shown(v, table) == v
    ensures (exists c :: c in v && (c == ' ' || c == '\t' || c == '"' || c == '\'')) ==> Shown(v, table) == "\"" + Escaped(v, table) + "\""
  {
  }

  /** How a character is written inside double quotes: quotes and backslashes behind a backslash, printable ASCII and
      what the table calls printable as it is, control characters by their letter or in hexadecimal. */
  lemma EscapeExactly(c: char, v: string, table: char -> bool)
    ensures Escaped([c] + v, table) == Escape(c, table) + Escaped(v, table)
    ensures c == '"' || c == '\\' ==> Escape(c, table) == ['\\', c]
    ensures c != '"' && c != '\\' && 32 <= c as int <= 126 ==> Escape(c, table) == [c]
    ensures c as int > 127 && table(c) ==> Escape(c, table) == [c]
    ensures c as int < 32 || c as int == 127 || (c as int > 127 && !table(c)) ==> |Escape(c, table)| >= 2 && Escape(c, table)[0] == '\\'
    ensures Escape('\n', table) == "\\n" && Escape('\t', table) == "\\t" && Escape('\r', table) == "\\r"
    ensures Escape(7 as char, table) == "\\a" && Escape(8 as char, table) == "\\b" && Escape(12 as char, table) == "\\f"
    ensures Escape(11 as char, table) == "\\v"
  {
    assert ([c] + v)[1..] == v;
  }

  predicate Spells(e: string, letter: char, digits: nat, n: int) {
    |e| == digits + 2 && e[0] == '\\' && e[1] == letter && HexValue(e[2..]) == n
  }

  lemma HexSpells(letter: char, digits: nat, n: nat)
    requires n < Power16(digits)
    ensures Spells(['\\', letter] + Hex(n, digits), letter, digits, n)
  {
    var e := ['\\', letter] + Hex(n, digits);
    HexMeans(n, digits);
    assert e[2..] == Hex(n, digits);
    SmallMod(n, Power16(digits));
  }

  lemma SmallMod(n: nat, m: nat)
    requires n < m
    ensures n % m == n
  {
  }

  lemma Powers()
    ensures Power16(2) == 0x100 && Power16(4) == 0x1_0000 && Power16(8) == 0x1_0000_0000
  {
    assert Power16(2) == 16 * (16 * Power16(0));
    assert Power16(4) == 16 * (16 * Power16(2));
    assert Power16(8) == 16 * (16 * (16 * (16 * Power16(4))));
  }

  /** Characters that cannot be printed and have no letter are written in hexadecimal: two digits below 128, four
      below 65536, eight from there on. */
  lemma HexEscapes(c: char, table: char -> bool)
    requires ShortEscape(c).None? && !IsPrint(c, table) && c != '"' && c != '\\'
    ensures c as int < 128 ==> Spells(Escape(c, table), 'x', 2, c as int)
    ensures 128 <= c as int < 0x1_0000 ==> Spells(Escape(c, table), 'u', 4, c as int)
    ensures 0x1_0000 <= c as int ==> Spells(Escape(c, table), 'U', 8, c as int)
  {
    Powers();
    if c as int < 128 {
      HexSpells('x', 2, c as int);
    } else if c as int < 0x1_0000 {
      HexSpells('u', 4, c as int);
    } else {
      HexSpells('U', 8, c as int);
    }
  }

  /** The number a run of hexadecimal digits stands for. */
  function HexValue(h: string): int {
    if h == "" then 0
    else
      var d := h[|h| - 1];
      16 * HexValue(h[..|h| - 1]) + if '0' <= d <= '9' then d as int - 48 else d as int - 87
  }

  lemma {:induction false} HexMeans(n: nat, digits: nat)
    ensures HexValue(Hex(n, digits)) == n % Power16(digits)
  {
    if digits > 0 {
      HexMeans(n / 16, digits - 1);
      var h := Hex(n, digits);
      assert h[..digits - 1] == Hex(n / 16, digits - 1);
      HexDigitMeans(n % 16);
      ModSplit(n, Power16(digits - 1));
    }
  }

  function Power16(digits: nat): (p: nat)
    ensures p > 0
  {
    if digits == 0 then 1 else 16 * Power16(digits - 1)
  }

  lemma HexDigitMeans(n: nat)
    requires n < 16
    ensures var d := HexDigit(n); (if '0' <= d <= '9' then d as int - 48 else d as int - 87) == n
  {
  }

  lemma ModSplit(n: nat, p: nat)
    requires p > 0
    ensures n % (16 * p) == 16 * ((n / 16) % p) + n % 16
  {
    var q, r := n / 16 / p, (n / 16) % p;
    assert n == 16 * p * q + (16 * r + n % 16);
    assert 0 <= 16 * r + n % 16 < 16 * p;
    ModUnique(n, 16 * p, q, 16 * r + n % 16);
  }

  lemma TimesUp(m: nat, k: int)
    requires k >= 1
    ensures m * k >= m
  {
    assert m * k == m + m * (k - 1);
  }

  lemma SmallMultiple(m: nat, k: int)
    requires 0 < m * k + m && m * k < m
    ensures k == 0
  {
    if k > 0 { TimesUp(m, k); }
    if k < 0 { TimesUp(m, -k); }
  }

  lemma Quotients(m: nat, d: nat, s: nat, q: nat, r: nat)
    requires m * d + s == m * q + r && s < m && r < m
    ensures s == r
  {
    assert m * (d - q) == r - s;
    SmallMultiple(m, d - q);
  }

  lemma ModUnique(n: nat, m: nat, q: nat, r: nat)
    requires m > 0 && n == m * q + r && r < m
    ensures n % m == r
  {
    Quotients(m, n / m, n % m, q, r);
  }
}
