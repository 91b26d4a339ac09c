/** src/util.rs:144-183: file name patterns, compiled to regular expressions. */
module Glob {
  import opened Wrappers
  import opened Sequences

  // ---- the compiler ----

  /** The characters that the compiler escapes. */
  predicate IsSpecial(ch: char) {
    || ch == '.' || ch == '+' || ch == '(' || ch == ')' || ch == '[' || ch == ']' || ch == '{' || ch == '}'
    || ch == '^' || ch == '$' || ch == '|' || ch == '\\'
  }

  function Emit(ch: char): string {
    if ch == '*' then ".*"
    else if ch == '?' then "."
    else if IsSpecial(ch) then ['\\', ch]
    else [ch]
  }

  function Body(pattern: string): string {
    if pattern == "" then "" else Emit(pattern[0]) + Body(pattern[1..])
  }

  /** Text in which a backslash stands only before one of the twelve operators, and no operator but the dot
      and the star without one. */
  predicate WellEscaped(text: string) {
    if text == "" then true
    else if text[0] == '\\' then
      |text| >= 2 && IsOperator(text[1]) && text[1] != '*' && text[1] != '?' && WellEscaped(text[2..])
    else
      (text[0] == '.' || text[0] == '*' || !IsOperator(text[0])) && WellEscaped(text[1..])
  }

  lemma {:induction false} BodyIsWellEscaped(pattern: string)
    ensures WellEscaped(Body(pattern))
  {
    if pattern == "" {
    } else {
      BodyIsWellEscaped(pattern[1..]);
      EmitIsWellEscaped(pattern[0], Body(pattern[1..]));
    }
  }

  lemma EmitIsWellEscaped(ch: char, rest: string)
    requires WellEscaped(rest)
    ensures WellEscaped(Emit(ch) + rest)
  {
    var text := Emit(ch) + rest;
    if |Emit(ch)| == 1 {
      assert text[1..] == rest;
    } else {
      assert text[2..] == rest && text[1..] == [text[1]] + rest && text[1..][1..] == rest;
    }
  }

  method Compile(pattern: string) returns (regex: string)
    ensures regex == "^" + Body(pattern) + "$"
    ensures |regex| >= 2 && WellEscaped(regex[1..|regex| - 1])
  {
    regex := "^";
    for k := 0 to |pattern|
      invariant regex + Body(pattern[k..]) == "^" + Body(pattern)
    {
      var ch := pattern[k];
      assert pattern[k..][0] == ch && pattern[k..][1..] == pattern[k + 1..];
      ghost var before, rest := regex, Body(pattern[k + 1..]);
      if ch == '*' {
        regex := regex + ".*";
      } else if ch == '?' {
        regex := regex + ".";
      } else if IsSpecial(ch) {
        regex := regex + ['\\'];
        regex := regex + [ch];
      } else {
        regex := regex + [ch];
      }
      assert regex == before + Emit(ch);
      Associate(before, Emit(ch), rest);
    }
    assert pattern[|pattern|..] == "" && regex + "" == regex;
    regex := regex + "$";
    assert regex[1..|regex| - 1] == Body(pattern);
    BodyIsWellEscaped(pattern);
  }

  // ---- the subset of regular expressions it uses ----

  datatype Token = AnyRun | AnyOne | Literal(c: char)

  /** The operators of regular expressions. A backslash before one of them stands for the character itself;
      before a letter or a digit it would mean something else. */
  predicate IsOperator(ch: char) {
    || ch == '\\' || ch == '.' || ch == '+' || ch == '*' || ch == '?' || ch == '(' || ch == ')' || ch == '|'
    || ch == '[' || ch == ']' || ch == '{' || ch == '}' || ch == '^' || ch == '$'
  }

  /** The first token of a regular expression and its length; `None` outside of the subset. */
  function Lex(regex: string): (r: (Option<Token>, nat))
    requires regex != ""
    ensures 1 <= r.1 <= |regex|
  {
    var ch := regex[0];
    if ch == '\\' then
      if |regex| >= 2 && IsOperator(regex[1]) then (Some(Literal(regex[1])), 2) else (None, 1)
    else if ch == '.' then
      if |regex| >= 2 && regex[1] == '*' then (Some(AnyRun), 2) else (Some(AnyOne), 1)
    else if IsOperator(ch) then (None, 1)
    else (Some(Literal(ch)), 1)
  }

  /** Tokens of a regular expression without its anchors. */
  function Parse(regex: string): Option<seq<Token>> {
    if regex == "" then Some([])
    else
      var (token, n) := Lex(regex);
      var rest := Parse(regex[n..]);
      if token.Some? && rest.Some? then Some([token.value] + rest.value) else None
  }

  /** A dot does not match a line feed. */
  predicate Matches(tokens: seq<Token>, s: string)
    decreases |tokens|, |s|
  {
    if tokens == [] then s == ""
    else
      match tokens[0]
      case AnyRun => Matches(tokens[1..], s) || (s != "" && s[0] != '\n' && Matches(tokens, s[1..]))
      case AnyOne => s != "" && s[0] != '\n' && Matches(tokens[1..], s[1..])
      case Literal(c) => s != "" && s[0] == c && Matches(tokens[1..], s[1..])
  }

  predicate RegexMatches(regex: string, s: string) {
    && |regex| >= 2 && regex[0] == '^' && regex[|regex| - 1] == '$'
    && var tokens := Parse(regex[1..|regex| - 1]);
       tokens.Some? && Matches(tokens.value, s)
  }

  /** The names for which a compiled pattern matches; every name for an empty pattern. An invalid
      regular expression would select nothing. */
  method FilterFiles(files: seq<string>, pattern: string) returns (r: seq<string>)
    ensures r == Selected(files, pattern)
  {
    if pattern == "" {
      SelectsAll(files);
      return files;
    }
    var regex := Compile(pattern);
    r := [];
    for k := 0 to |files|
      invariant r + Selected(files[k..], pattern) == Selected(files, pattern)
    {
      var filename := files[k];
      CompiledMatches(pattern, filename);
      SelectedCons(files, k, pattern);
      var matched := RegexMatches(regex, filename);
      Associate(r, if matched then [filename] else [], Selected(files[k + 1..], pattern));
      r := r + if matched then [filename] else [];
    }
    assert files[|files|..] == [];
  }

  // ---- the meaning of a pattern, without regular expressions ----

  predicate OneLine(s: string) {
    '\n' !in s
  }

  /** `*` stands for any run of characters and `?` for any one, line feeds excepted. */
  predicate GlobMatches(pattern: string, s: string) {
    if pattern == "" then s == ""
    else if pattern[0] == '*' then
      exists k | 0 <= k <= |s| :: OneLine(s[..k]) && GlobMatches(pattern[1..], s[k..])
    else
      && s != "" && (if pattern[0] == '?' then s[0] != '\n' else s[0] == pattern[0])
      && GlobMatches(pattern[1..], s[1..])
  }

  /** The files a request should list, in their original order. */
  function Selected(files: seq<string>, pattern: string): seq<string> {
    if files == [] then []
    else (if pattern == "" || GlobMatches(pattern, files[0]) then [files[0]] else []) + Selected(files[1..], pattern)
  }

  lemma SelectedCons(files: seq<string>, k: nat, pattern: string)
    requires k < |files| && pattern != ""
    ensures Selected(files[k..], pattern) ==
            (if GlobMatches(pattern, files[k]) then [files[k]] else []) + Selected(files[k + 1..], pattern)
  {
    assert files[k..][0] == files[k] && files[k..][1..] == files[k + 1..];
  }

  lemma {:induction false} SelectsAll(files: seq<string>)
    ensures Selected(files, "") == files
  {
    if files == [] {
    } else {
      SelectsAll(files[1..]);
    }
  }

  function TokenOf(ch: char): Token {
    if ch == '*' then AnyRun else if ch == '?' then AnyOne else Literal(ch)
  }

  function Tokens(pattern: string): seq<Token> {
    seq(|pattern|, i requires 0 <= i < |pattern| => TokenOf(pattern[i]))
  }

  /** The compiled text parses, always, and to the tokens of the pattern: no character of a file name
      is taken for an operator. */
  lemma {:induction false} BodyParses(pattern: string)
    ensures Parse(Body(pattern)) == Some(Tokens(pattern))
  {
    if pattern == "" {
    } else {
      BodyParses(pattern[1..]);
      LexEmit(pattern[0], Body(pattern[1..]));
      assert Tokens(pattern) == [TokenOf(pattern[0])] + Tokens(pattern[1..]);
    }
  }

  lemma LexEmit(ch: char, rest: string)
    requires rest != "" ==> rest[0] != '*'
    ensures Lex(Emit(ch) + rest) == (Some(TokenOf(ch)), |Emit(ch)|)
    ensures (Emit(ch) + rest)[|Emit(ch)|..] == rest
  {
  }

  lemma {:induction false} RunMatches(pattern: string, s: string)
    requires pattern != "" && pattern[0] == '*'
    requires forall t :: Matches(Tokens(pattern[1..]), t) <==> GlobMatches(pattern[1..], t)
    ensures Matches(Tokens(pattern), s) <==> GlobMatches(pattern, s)
    decreases |s|
  {
    var tokens := Tokens(pattern);
    assert tokens[1..] == Tokens(pattern[1..]);
    if s == "" {
      assert s[..0] == "" && s[0..] == s;
    } else {
      RunMatches(pattern, s[1..]);
      assert s[0..] == s && OneLine(s[..0]);
      if k :| 0 <= k <= |s| && OneLine(s[..k]) && GlobMatches(pattern[1..], s[k..]) {
        if k > 0 {
          assert s[..k][0] == s[0] && s[1..][..k - 1] == s[..k][1..] && s[1..][k - 1..] == s[k..];
        }
      }
      if s[0] != '\n' && GlobMatches(pattern, s[1..]) {
        var k :| 0 <= k <= |s[1..]| && OneLine(s[1..][..k]) && GlobMatches(pattern[1..], s[1..][k..]);
        TakeTail(s, k);
        assert OneLine(s[..k + 1]);
      }
    }
  }

  lemma {:induction false} TokensMatch(pattern: string, s: string)
    ensures Matches(Tokens(pattern), s) <==> GlobMatches(pattern, s)
    decreases |pattern|
  {
    if pattern == "" {
    } else {
      assert Tokens(pattern)[1..] == Tokens(pattern[1..]);
      if pattern[0] == '*' {
        forall t ensures Matches(Tokens(pattern[1..]), t) <==> GlobMatches(pattern[1..], t) {
          TokensMatch(pattern[1..], t);
        }
        RunMatches(pattern, s);
      } else if s != "" {
        TokensMatch(pattern[1..], s[1..]);
      }
    }
  }

  /** Compilation preserves meaning. */
  lemma CompiledMatches(pattern: string, s: string)
    ensures RegexMatches("^" + Body(pattern) + "$", s) <==> GlobMatches(pattern, s)
  {
    var regex := "^" + Body(pattern) + "$";
    assert regex[1..|regex| - 1] == Body(pattern);
    BodyParses(pattern);
    TokensMatch(pattern, s);
  }

  // ---- line feeds ----

  /** A pattern in which the wildcards stand for any characters whatsoever. */
  predicate WildMatches(pattern: string, s: string) {
    if pattern == "" then s == ""
    else if pattern[0] == '*' then exists k | 0 <= k <= |s| :: WildMatches(pattern[1..], s[k..])
    else s != "" && (pattern[0] == '?' || s[0] == pattern[0]) && WildMatches(pattern[1..], s[1..])
  }

  lemma {:induction false} WildOnOneLine(pattern: string, s: string)
    requires OneLine(s)
    ensures WildMatches(pattern, s) <==> GlobMatches(pattern, s)
    decreases |pattern|
  {
    if pattern == "" {
    } else {
      if pattern[0] == '*' {
        forall k | 0 <= k <= |s|
          ensures OneLine(s[..k]) && (WildMatches(pattern[1..], s[k..]) <==> GlobMatches(pattern[1..], s[k..]))
        {
          WildOnOneLine(pattern[1..], s[k..]);
        }
      } else if s != "" {
        WildOnOneLine(pattern[1..], s[1..]);
      }
    }
  }

  /** The comments in the source say that the wildcards match any characters. That is so exactly for
      the names without a line feed. */
  lemma WildcardsMatchAnythingIffOneLine(s: string)
    ensures (forall pattern :: WildMatches(pattern, s) <==> GlobMatches(pattern, s)) <==> OneLine(s)
  {
    if OneLine(s) {
      forall pattern ensures WildMatches(pattern, s) <==> GlobMatches(pattern, s) {
        WildOnOneLine(pattern, s);
      }
    } else {
      assert WildMatches("*", s) by {
        assert s[|s|..] == "" && WildMatches("*"[1..], s[|s|..]);
      }
      if GlobMatches("*", s) {
        StarIsOneLine(s);
      }
    }
  }

  lemma StarIsOneLine(s: string)
    requires GlobMatches("*", s)
    ensures OneLine(s)
  {
    var k :| 0 <= k <= |s| && OneLine(s[..k]) && GlobMatches("*"[1..], s[k..]);
    assert s == s[..k];
  }
}
