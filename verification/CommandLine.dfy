/** The shell-style tokenizer of the command form: quotes group, a backslash escapes outside single
    quotes, blanks separate. */
module CommandLine {
  import opened Options

  datatype CommandError = Unterminated(quote: char) | NotKeyValue(token: string)

  /** Between arguments, inside one, or inside a quotation of one. */
  datatype Lexer = Between | InArg(cur: string) | Quoted(cur: string, quote: char)
  {
    /** The argument read so far. */
    function Cur(): string { if Between? then "" else cur }
  }

  predicate Blank(c: char) { c == ' ' || c == '\t' }
  predicate QuoteMark(c: char) { c == '\'' || c == '"' }

  function Emit(arg: string, r: Result<seq<string>, CommandError>): Result<seq<string>, CommandError> {
    match r case Ok(args) => Ok([arg] + args) case Err(e) => Err(e)
  }

  /** The arguments still to come. */
  function Lex(s: string, st: Lexer): Result<seq<string>, CommandError>
    decreases |s|
  {
    if s == [] then
      match st
      case Between => Ok([])
      case InArg(cur) => Ok([cur])
      case Quoted(_, quote) => Err(Unterminated(quote))
    else if st.Quoted? then
      if s[0] == st.quote then Lex(s[1..], InArg(st.cur))
      else if s[0] == '\\' && st.quote == '"' && |s| > 1 then Lex(s[2..], Quoted(st.cur + [s[1]], st.quote))
      else Lex(s[1..], Quoted(st.cur + [s[0]], st.quote))
    else if QuoteMark(s[0]) then Lex(s[1..], Quoted(st.Cur(), s[0]))
    else if s[0] == '\\' && |s| > 1 then Lex(s[2..], InArg(st.Cur() + [s[1]]))
    else if Blank(s[0]) then
      if st.InArg? then Emit(st.cur, Lex(s[1..], Between)) else Lex(s[1..], Between)
    else Lex(s[1..], InArg(st.Cur() + [s[0]]))
  }

  function Arguments(s: string): Result<seq<string>, CommandError> { Lex(s, Between) }

  function After(args: seq<string>, r: Result<seq<string>, CommandError>): Result<seq<string>, CommandError> {
    match r case Ok(more) => Ok(args + more) case Err(e) => Err(e)
  }

  function StateOf(cur: string, inArg: bool, quote: Option<char>): Lexer {
    match quote
    case Some(q) => Quoted(cur, q)
    case None => if inArg then InArg(cur) else Between
  }

  /** One turn of the loop: the state after the character at i, and the argument it completed. */
  method ReadChar(s: string, i: nat, cur0: string, inArg0: bool, quote0: Option<char>)
    returns (next: nat, cur: string, inArg: bool, quote: Option<char>, done: Option<string>)
    requires i < |s| && (!inArg0 && quote0.None? ==> cur0 == "")
    ensures i < next <= |s| && (!inArg && quote.None? ==> cur == "")
    ensures var rest := Lex(s[next..], StateOf(cur, inArg, quote));
      Lex(s[i..], StateOf(cur0, inArg0, quote0)) == match done case Some(arg) => Emit(arg, rest) case None => rest
  {
    next, cur, inArg, quote, done := i + 1, cur0, inArg0, quote0, None;
    var c := s[i];
    assert s[i..][0] == c && s[i..][1..] == s[i + 1..];
    if i + 1 < |s| { assert s[i..][1] == s[i + 1] && s[i..][2..] == s[i + 2..]; }
    if quote.Some? {
      if c == quote.value {
        quote := None;
      } else if c == '\\' && quote.value == '"' && i + 1 < |s| {
        next := i + 2;
        cur := cur + [s[i + 1]];
      } else {
        cur := cur + [c];
      }
      inArg := true;
    } else if c == '\'' || c == '"' {
      quote := Some(c);
      inArg := true;
    } else if c == '\\' && i + 1 < |s| {
      next := i + 2;
      cur := cur + [s[i + 1]];
      inArg := true;
    } else if c == ' ' || c == '\t' {
      if inArg {
        done := Some(cur);
        cur := "";
        inArg := false;
      }
    } else {
      cur := cur + [c];
      inArg := true;
    }
  }

  lemma AfterEmit(args: seq<string>, arg: string, r: Result<seq<string>, CommandError>)
    ensures After(args, Emit(arg, r)) == After(args + [arg], r)
  {
    if r.Ok? { assert args + ([arg] + r.value) == (args + [arg]) + r.value; }
  }

  method ParseCommandLine(s: string) returns (r: Result<seq<string>, CommandError>)
    ensures r == Arguments(s)
  {
    var args: seq<string> := [];
    var cur, inArg, quote := "", false, None;
    var i := 0;
    assert s[0..] == s && (Arguments(s).Ok? ==> args + Arguments(s).value == Arguments(s).value);
    while i < |s|
      invariant 0 <= i <= |s| && (!inArg && quote.None? ==> cur == "")
      invariant After(args, Lex(s[i..], StateOf(cur, inArg, quote))) == Arguments(s)
    {
      var next, done;
      next, cur, inArg, quote, done := ReadChar(s, i, cur, inArg, quote);
      if done.Some? {
        AfterEmit(args, done.value, Lex(s[next..], StateOf(cur, inArg, quote)));
        args := args + [done.value];
      }
      i := next;
    }
    assert s[i..] == [];
    if quote.Some? {
      return Err(Unterminated(quote.value));
    }
    if inArg {
      args := args + [cur];
    } else {
      assert args + [] == args;
    }
    return Ok(args);
  }

  // ---- What quoting is for. ----

  lemma Glue(a: string, b: string, c: string)
    ensures a + b + c == a + (b + c)
  {
  }

  lemma {:induction false} LexSingle(s: string, rest: string, cur: string)
    requires '\'' !in s
    ensures Lex(s + ("'" + rest), Quoted(cur, '\'')) == Lex(rest, InArg(cur + s))
    decreases |s|
  {
    if s == [] {
      assert s + ("'" + rest) == "'" + rest && ("'" + rest)[1..] == rest && cur + s == cur;
    } else {
      assert s[0] in s && (s + ("'" + rest))[1..] == s[1..] + ("'" + rest);
      Glue(cur, [s[0]], s[1..]);
      assert [s[0]] + s[1..] == s;
      LexSingle(s[1..], rest, cur + [s[0]]);
    }
  }

  /** Between single quotes every character stands for itself, a backslash and a double quote included. */
  lemma SingleQuotes(s: string, rest: string, st: Lexer)
    requires '\'' !in s && !st.Quoted?
    ensures Lex("'" + s + "'" + rest, st) == Lex(rest, InArg(st.Cur() + s))
  {
    assert "'" + s + "'" + rest == "'" + (s + ("'" + rest)) && ("'" + (s + ("'" + rest)))[1..] == s + ("'" + rest);
    LexSingle(s, rest, st.Cur());
  }

  /** A double quote or a backslash with a backslash in front of it; other characters stand for themselves. */
  function Guarded(s: string): string {
    if s == [] then [] else (if s[0] == '"' || s[0] == '\\' then ['\\', s[0]] else [s[0]]) + Guarded(s[1..])
  }

  lemma {:induction false} LexDouble(s: string, rest: string, cur: string)
    ensures Lex(Guarded(s) + ("\"" + rest), Quoted(cur, '"')) == Lex(rest, InArg(cur + s))
    decreases |s|
  {
    var tail := "\"" + rest;
    if s == [] {
      assert Guarded(s) + tail == tail && tail[1..] == rest && cur + s == cur;
    } else {
      var more := Guarded(s[1..]) + tail;
      assert Guarded(s) + tail == (if s[0] == '"' || s[0] == '\\' then ['\\', s[0]] else [s[0]]) + more;
      assert (['\\', s[0]] + more)[2..] == more && ([s[0]] + more)[1..] == more;
      Glue(cur, [s[0]], s[1..]);
      assert [s[0]] + s[1..] == s;
      LexDouble(s[1..], rest, cur + [s[0]]);
    }
  }

  /** Between double quotes a backslash hands on the next character, a quote or a backslash included. */
  lemma DoubleQuotes(s: string, rest: string, st: Lexer)
    requires !st.Quoted?
    ensures Lex("\"" + Guarded(s) + "\"" + rest, st) == Lex(rest, InArg(st.Cur() + s))
  {
    var text := Guarded(s) + ("\"" + rest);
    assert "\"" + Guarded(s) + "\"" + rest == "\"" + text && ("\"" + text)[1..] == text;
    LexDouble(s, rest, st.Cur());
  }

  /** Every character with a backslash in front of it. */
  function Slashed(s: string): string { if s == [] then [] else ['\\', s[0]] + Slashed(s[1..]) }

  /** Outside quotes a backslash hands on the next character, a blank, a quote or a backslash included. */
  lemma {:induction false} Slashes(s: string, rest: string, st: Lexer)
    requires s != "" && !st.Quoted?
    ensures Lex(Slashed(s) + rest, st) == Lex(rest, InArg(st.Cur() + s))
    decreases |s|
  {
    var more := Slashed(s[1..]) + rest;
    assert Slashed(s) + rest == ['\\', s[0]] + more && (['\\', s[0]] + more)[2..] == more;
    Glue(st.Cur(), [s[0]], s[1..]);
    assert [s[0]] + s[1..] == s;
    if s[1..] == [] {
      assert more == rest && s == [s[0]];
    } else {
      Slashes(s[1..], rest, InArg(st.Cur() + [s[0]]));
    }
  }

  predicate Ordinary(c: char) { c != ' ' && c != '\t' && c != '\'' && c != '"' && c != '\\' }

  /** Ordinary characters stand for themselves. */
  lemma {:induction false} OrdinaryText(s: string, rest: string, st: Lexer)
    requires s != "" && !st.Quoted? && forall i :: 0 <= i < |s| ==> Ordinary(s[i])
    ensures Lex(s + rest, st) == Lex(rest, InArg(st.Cur() + s))
    decreases |s|
  {
    assert (s + rest)[1..] == s[1..] + rest && Ordinary(s[0]);
    Glue(st.Cur(), [s[0]], s[1..]);
    assert [s[0]] + s[1..] == s;
    if s[1..] == [] {
      assert s[1..] + rest == rest && s == [s[0]];
    } else {
      OrdinaryText(s[1..], rest, InArg(st.Cur() + [s[0]]));
    }
  }

  /** The ways to write an argument. */
  datatype Style = Bare | Single | Double | Backslashed

  predicate Writes(style: Style, arg: string) {
    match style
    case Bare => arg != "" && forall i :: 0 <= i < |arg| ==> Ordinary(arg[i])
    case Single => '\'' !in arg
    case Double => true
    case Backslashed => arg != ""
  }

  function Written(style: Style, arg: string): string {
    match style
    case Bare => arg
    case Single => "'" + arg + "'"
    case Double => "\"" + Guarded(arg) + "\""
    case Backslashed => Slashed(arg)
  }

  lemma WrittenReads(style: Style, arg: string, rest: string, st: Lexer)
    requires Writes(style, arg) && !st.Quoted?
    ensures Lex(Written(style, arg) + rest, st) == Lex(rest, InArg(st.Cur() + arg))
  {
    match style
    case Bare => OrdinaryText(arg, rest, st);
    case Single => SingleQuotes(arg, rest, st);
    case Double => DoubleQuotes(arg, rest, st);
    case Backslashed => Slashes(arg, rest, st);
  }

  /** The arguments, each in its style, with blanks between them. */
  function WrittenLine(styles: seq<Style>, args: seq<string>, gap: string): string
    requires |styles| == |args|
  {
    if args == [] then ""
    else if |args| == 1 then Written(styles[0], args[0])
    else Written(styles[0], args[0]) + (gap + WrittenLine(styles[1..], args[1..], gap))
  }

  predicate Gap(gap: string) { gap != "" && forall i :: 0 <= i < |gap| ==> gap[i] == ' ' || gap[i] == '\t' }

  lemma {:induction false} LexBlanks(gap: string, rest: string)
    requires forall i :: 0 <= i < |gap| ==> gap[i] == ' ' || gap[i] == '\t'
    ensures Lex(gap + rest, Between) == Lex(rest, Between)
    decreases |gap|
  {
    if gap == [] {
      assert gap + rest == rest;
    } else {
      assert (gap + rest)[1..] == gap[1..] + rest;
      LexBlanks(gap[1..], rest);
    }
  }

  lemma LexGap(gap: string, rest: string, arg: string)
    requires Gap(gap)
    ensures Lex(gap + rest, InArg(arg)) == Emit(arg, Lex(rest, Between))
  {
    assert (gap + rest)[1..] == gap[1..] + rest && gap[0] == (gap + rest)[0];
    LexBlanks(gap[1..], rest);
  }

  /** Whatever the arguments, however each is written, and whatever blanks and tabs stand between them: the
      line is read as exactly those arguments. */
  lemma {:induction false} WrittenLineReads(styles: seq<Style>, args: seq<string>, gap: string)
    requires |styles| == |args| && Gap(gap) && forall i :: 0 <= i < |args| ==> Writes(styles[i], args[i])
    ensures Arguments(WrittenLine(styles, args, gap)) == Ok(args)
    decreases |args|
  {
    if args == [] {
    } else if |args| == 1 {
      assert args == [args[0]];
      WrittenReads(styles[0], args[0], "", Between);
      assert Written(styles[0], args[0]) + "" == Written(styles[0], args[0]) && "" + args[0] == args[0];
    } else {
      var rest := WrittenLine(styles[1..], args[1..], gap);
      WrittenReads(styles[0], args[0], gap + rest, Between);
      assert "" + args[0] == args[0];
      LexGap(gap, rest, args[0]);
      WrittenLineReads(styles[1..], args[1..], gap);
      assert [args[0]] + args[1..] == args;
    }
  }

  /** A quotation that is not closed is the error. */
  lemma UnclosedIsError(style: Style, arg: string, quote: char, s: string)
    requires Writes(style, arg) && (quote == '\'' || quote == '"') && quote !in s && '\\' !in s
    ensures Arguments(Written(style, arg) + ([quote] + s)) == Err(Unterminated(quote))
  {
    WrittenReads(style, arg, [quote] + s, Between);
    assert "" + arg == arg && ([quote] + s)[1..] == s;
    OpenQuote(s, arg, quote);
  }

  lemma {:induction false} OpenQuote(s: string, cur: string, quote: char)
    requires quote !in s && '\\' !in s
    ensures Lex(s, Quoted(cur, quote)) == Err(Unterminated(quote))
    decreases |s|
  {
    if s != [] {
      assert s[0] in s;
      OpenQuote(s[1..], cur + [s[0]], quote);
    }
  }

  /** A last backslash outside quotes stands for itself. */
  lemma LastBackslash(st: Lexer)
    requires !st.Quoted?
    ensures Lex("\\", st) == Ok([st.Cur() + "\\"])
  {
    assert "\\"[1..] == [];
  }
}
