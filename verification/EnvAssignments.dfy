/** The command form's environment field: the same tokens, but every key must be named and an empty
    field means no environment. */
module EnvAssignments {
  import opened Options
  import opened Text
  import opened CommandLine
  import opened EnvTokens

  /** The assignments of the tokens up to the first one without a named key. */
  function NamedEnvOf(toks: seq<string>): Result<Env, CommandError> {
    if toks == [] then Ok(map[])
    else
      var (k, v) := Cut(toks[0], '=');
      if v.None? || k == "" then Err(NotKeyValue(toks[0]))
      else AddFirst(k, v.value, NamedEnvOf(toks[1..]))
  }

  lemma {:induction false} NamedSnoc(toks: seq<string>, tok: string)
    requires NamedEnvOf(toks).Ok?
    ensures var (k, v) := Cut(tok, '=');
      NamedEnvOf(toks + [tok]) == if v.None? || k == "" then Err(NotKeyValue(tok)) else Ok(NamedEnvOf(toks).value[k := v.value])
  {
    var (k, v) := Cut(tok, '=');
    if toks == [] {
      assert toks + [tok] == [tok] && [tok][1..] == [];
      if v.Some? { assert map[k := v.value] + map[] == map[k := v.value]; }
    } else {
      assert (toks + [tok])[1..] == toks[1..] + [tok];
      NamedSnoc(toks[1..], tok);
      var (first, value) := Cut(toks[0], '=');
      if v.Some? && k != "" {
        var later := NamedEnvOf(toks[1..]).value;
        assert map[first := value.value] + later[k := v.value] == (map[first := value.value] + later)[k := v.value];
      }
    }
  }

  lemma {:induction false} FirstUnnamedWins(toks: seq<string>, n: nat)
    requires n <= |toks| && NamedEnvOf(toks[..n]).Err?
    ensures NamedEnvOf(toks) == NamedEnvOf(toks[..n])
  {
    if n > 0 {
      assert toks[..n][0] == toks[0] && toks[..n][1..] == toks[1..][..n - 1];
      if NamedEnvOf(toks[1..][..n - 1]).Err? { FirstUnnamedWins(toks[1..], n - 1); }
    }
  }

  /** No environment for a blank text, else that of its tokens. */
  function Assignments(s: string): Result<Option<Env>, CommandError> {
    if TrimSpace(s) == "" then Ok(None)
    else match Arguments(s)
      case Err(e) => Err(e)
      case Ok(toks) => match NamedEnvOf(toks) case Err(e) => Err(e) case Ok(env) => Ok(Some(env))
  }

  method ParseEnvAssignments(s: string) returns (r: Result<Option<Env>, CommandError>)
    ensures r == Assignments(s)
  {
    if TrimSpace(s) == "" {
      return Ok(None);
    }
    var tokens := ParseCommandLine(s);
    if tokens.Err? {
      return Err(tokens.error);
    }
    var env: Env := map[];
    for i := 0 to |tokens.value|
      invariant NamedEnvOf(tokens.value[..i]) == Ok(env)
    {
      var tok := tokens.value[i];
      assert tokens.value[..i + 1] == tokens.value[..i] + [tok];
      NamedSnoc(tokens.value[..i], tok);
      var (k, v) := Cut(tok, '=');
      if v.None? || k == "" {
        FirstUnnamedWins(tokens.value, i + 1);
        return Err(NotKeyValue(tok));
      }
      env := env[k := v.value];
    }
    assert tokens.value[..|tokens.value|] == tokens.value;
    return Ok(Some(env));
  }

  lemma {:induction false} NamedExactly(toks: seq<string>)
    ensures NamedEnvOf(toks).Ok? <==> EnvOf(toks).Ok? && "" !in EnvOf(toks).value
    ensures NamedEnvOf(toks).Ok? ==> NamedEnvOf(toks) == EnvOf(toks)
  {
    if toks != [] { NamedExactly(toks[1..]); }
  }

  /** The command form accepts a text exactly when it is blank or the step form accepts it and no key is
      empty, and both read the same environment. */
  lemma AssignmentsExactly(s: string)
    ensures Assignments(s).Ok? <==> TrimSpace(s) == "" || (ParseEnv(s).Ok? && "" !in ParseEnv(s).value)
    ensures Assignments(s).Ok? && TrimSpace(s) != "" ==> Assignments(s).value == Some(ParseEnv(s).value)
  {
    if Arguments(s).Ok? { NamedExactly(Arguments(s).value); }
  }
}
