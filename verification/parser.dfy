/**
 * The command-line parser: a single-pass tokenizer with quote and escape
 * state, the pipeline builder that groups tokens into commands, operators,
 * flags and redirects, and glob expansion over a list of file names.
 */
module Parser {
  import opened Wrappers
  import opened Strings

  // ---------------------------------------------------------------------------
  // Tokenizer

  /** The loop state of `tokenize`; `quote` is `Some(q)` exactly while inside a q-quoted region. */
  datatype Lexer = Lexer(tokens: seq<string>, current: string, quote: Option<char>, escaped: bool)

  const InitialLexer := Lexer([], "", None, false)

  predicate AllNonEmpty(tokens: seq<string>) {
    forall i :: 0 <= i < |tokens| ==> tokens[i] != ""
  }

  /** Ends the token in progress, if any. */
  function Flush(st: Lexer): (r: Lexer)
    ensures r.current == "" && r.quote == st.quote && r.escaped == st.escaped
    ensures r.tokens == if st.current == "" then st.tokens else st.tokens + [st.current]
  {
    if st.current != "" then st.(tokens := st.tokens + [st.current], current := "") else st
  }

  /** Ends the token in progress and emits an operator token. */
  function Emit(st: Lexer, op: string): Lexer {
    var f := Flush(st);
    f.(tokens := f.tokens + [op])
  }

  function Append(st: Lexer, c: char): Lexer {
    st.(current := st.current + [c])
  }

  predicate IsQuote(c: char) {
    c == '"' || c == '\''
  }

  /** The loop of `tokenize` over the unread suffix of the input. */
  function Lex(input: string, st: Lexer): (r: Lexer)
    ensures AllNonEmpty(st.tokens) ==> AllNonEmpty(r.tokens)
    decreases |input|
  {
    if |input| == 0 then st
    else
      var c := input[0];
      var rest := input[1..];
      var next := if |input| > 1 then Some(input[1]) else None;
      if st.escaped then Lex(rest, Append(st, c).(escaped := false))
      else if c == '\\' then Lex(rest, st.(escaped := true))
      else if IsQuote(c) then
        if st.quote.None? then Lex(rest, st.(quote := Some(c)))
        else if st.quote == Some(c) then Lex(rest, st.(quote := None))
        else Lex(rest, Append(st, c))
      else if st.quote.Some? then Lex(rest, Append(st, c))
      else if c == '&' && next == Some('&') then Lex(input[2..], Emit(st, "&&"))
      else if c == '|' then
        if next == Some('|') then Lex(input[2..], Emit(st, "||")) else Lex(rest, Emit(st, "|"))
      else if c == ';' then Lex(rest, Emit(st, ";"))
      else if c == '>' then
        if next == Some('>') then Lex(input[2..], Emit(st, ">>")) else Lex(rest, Emit(st, ">"))
      else if c == '<' then Lex(rest, Emit(st, "<"))
      else if c == ' ' || c == '\t' then Lex(rest, Flush(st))
      else Lex(rest, Append(st, c))
  }

  /** `CommandParser.tokenize`: tokens are never empty. */
  function Tokenize(input: string): (tokens: seq<string>)
    ensures AllNonEmpty(tokens)
  {
    Flush(Lex(input, InitialLexer)).tokens
  }

  /** Characters that neither separate, quote, escape nor start an operator. */
  predicate IsWordChar(c: char) {
    !IsQuote(c) && c != '\\' && c != '&' && c != '|' && c != ';' && c != '>' && c != '<'
    && c != ' ' && c != '\t'
  }

  predicate IsWord(w: string) {
    forall i :: 0 <= i < |w| ==> IsWordChar(w[i])
  }

  /** Outside quotes, word characters accumulate into the token in progress. */
  lemma {:induction false} LexWord(w: string, rest: string, st: Lexer)
    requires IsWord(w) && !st.escaped && st.quote.None?
    ensures Lex(w + rest, st) == Lex(rest, st.(current := st.current + w))
    decreases |w|
  {
    if |w| == 0 {
      assert w + rest == rest;
      assert st.current + w == st.current;
    } else {
      assert (w + rest)[1..] == w[1..] + rest;
      LexWord(w[1..], rest, Append(st, w[0]));
      assert st.current + [w[0]] + w[1..] == st.current + w;
    }
  }

  /** A backslash escapes the next character in every state, inside quotes too, and is not emitted. */
  lemma LexEscape(c: char, rest: string, st: Lexer)
    requires !st.escaped
    ensures Lex(['\\', c] + rest, st) == Lex(rest, Append(st, c))
  {
    assert (['\\', c] + rest)[1..] == [c] + rest;
    assert ([c] + rest)[1..] == rest;
  }

  /** A trailing backslash is dropped. */
  lemma LexTrailingBackslash(st: Lexer)
    requires !st.escaped
    ensures Flush(Lex("\\", st)).tokens == Flush(st).tokens
  {
  }

  /** Inside quotes every character but the opening quote kind and the backslash is kept. */
  lemma {:induction false} LexQuotedBody(w: string, rest: string, q: char, st: Lexer)
    requires IsQuote(q) && st.quote == Some(q) && !st.escaped
    requires forall i :: 0 <= i < |w| ==> w[i] != q && w[i] != '\\'
    ensures Lex(w + rest, st) == Lex(rest, st.(current := st.current + w))
    decreases |w|
  {
    if |w| == 0 {
      assert w + rest == rest;
      assert st.current + w == st.current;
    } else {
      assert (w + rest)[1..] == w[1..] + rest;
      LexQuotedBody(w[1..], rest, q, Append(st, w[0]));
      assert st.current + [w[0]] + w[1..] == st.current + w;
    }
  }

  /** A quoted region contributes its body, spaces, operators and the other quote kind included;
      the quotes themselves are never emitted. */
  lemma LexQuoted(q: char, w: string, rest: string, st: Lexer)
    requires IsQuote(q) && st.quote.None? && !st.escaped
    requires forall i :: 0 <= i < |w| ==> w[i] != q && w[i] != '\\'
    ensures Lex([q] + w + [q] + rest, st) == Lex(rest, st.(current := st.current + w))
  {
    var st1 := st.(quote := Some(q));
    assert ([q] + w + [q] + rest)[1..] == w + ([q] + rest);
    LexQuotedBody(w, [q] + rest, q, st1);
    assert ([q] + rest)[1..] == rest;
  }

  /** `""` yields no token. */
  lemma EmptyQuotesNoToken()
    ensures Tokenize("\"\"") == []
  {
    LexQuoted('"', "", "", InitialLexer);
    assert ['"'] + "" + ['"'] + "" == "\"\"";
  }

  /** Two-character operators consume both characters. */
  lemma LexDoubleOperators(rest: string, st: Lexer)
    requires !st.escaped && st.quote.None?
    ensures Lex("&&" + rest, st) == Lex(rest, Emit(st, "&&"))
    ensures Lex("||" + rest, st) == Lex(rest, Emit(st, "||"))
    ensures Lex(">>" + rest, st) == Lex(rest, Emit(st, ">>"))
  {
    assert ("&&" + rest)[2..] == rest;
    assert ("||" + rest)[2..] == rest;
    assert (">>" + rest)[2..] == rest;
  }

  /** `|`, `;`, `>` and `<` end the token in progress and become tokens of their own;
      a single `&` is ordinary text. Only `|`, `>` and `&` look at the next character, so
      `;;` and `<<` are two operators each. */
  lemma LexSingleOperators(c: char, rest: string, st: Lexer)
    requires !st.escaped && st.quote.None?
    requires c == ';' || c == '<' || |rest| == 0 || rest[0] != c
    ensures c == '|' || c == ';' || c == '>' || c == '<' ==> Lex([c] + rest, st) == Lex(rest, Emit(st, [c]))
    ensures c == '&' ==> Lex([c] + rest, st) == Lex(rest, Append(st, c))
  {
    assert ([c] + rest)[1..] == rest;
  }

  /** Only ' ' and '\t' separate tokens. */
  lemma LexSeparator(c: char, rest: string, st: Lexer)
    requires !st.escaped && st.quote.None?
    ensures c == ' ' || c == '\t' ==> Lex([c] + rest, st) == Lex(rest, Flush(st))
    ensures IsWordChar(c) ==> Lex([c] + rest, st) == Lex(rest, Append(st, c))
  {
    assert ([c] + rest)[1..] == rest;
  }

  /** Words separated by single spaces come back as the words. */
  lemma {:induction false} LexWords(words: seq<string>, st: Lexer)
    requires |words| >= 1
    requires forall i :: 0 <= i < |words| ==> words[i] != "" && IsWord(words[i])
    requires st.current == "" && !st.escaped && st.quote.None?
    ensures Flush(Lex(Join(words, " "), st)).tokens == st.tokens + words
    decreases |words|
  {
    if |words| == 1 {
      LexWord(words[0], "", st);
      assert st.current + words[0] == words[0];
      assert words[0] + "" == words[0];
      assert Join(words, " ") == words[0];
      assert Lex("", st.(current := words[0])) == st.(current := words[0]);
    } else {
      var tail := Join(words[1..], " ");
      assert Join(words, " ") == words[0] + (" " + tail);
      LexWord(words[0], " " + tail, st);
      assert st.current + words[0] == words[0];
      var st1 := st.(current := words[0]);
      assert " " + tail == [' '] + tail;
      LexSeparator(' ', tail, st1);
      var st2 := Flush(st1);
      assert st2.tokens == st.tokens + [words[0]] && st2.current == "";
      LexWords(words[1..], st2);
      assert st.tokens + [words[0]] + words[1..] == st.tokens + words;
    }
  }

  lemma TokenizeWords(words: seq<string>)
    requires |words| >= 1
    requires forall i :: 0 <= i < |words| ==> words[i] != "" && IsWord(words[i])
    ensures Tokenize(Join(words, " ")) == words
  {
    LexWords(words, InitialLexer);
  }

  // ---------------------------------------------------------------------------
  // Pipeline builder

  datatype RedirectKind = Overwrite | AppendTo | ReadFrom
  datatype Redirect = Redirect(kind: RedirectKind, target: string, commandIndex: nat)
  datatype FlagValue = FlagTrue | FlagText(text: string)
  datatype ParsedCommand = ParsedCommand(command: string, args: seq<string>, flags: map<string, FlagValue>)
  datatype Operator = Pipe | AndThen | OrElse | Sequence
  datatype Pipeline = Pipeline(commands: seq<ParsedCommand>, operators: seq<Operator>, redirects: seq<Redirect>)

  function RedirectOf(token: string): Option<RedirectKind> {
    if token == ">" then Some(Overwrite)
    else if token == ">>" then Some(AppendTo)
    else if token == "<" then Some(ReadFrom)
    else None
  }

  function OperatorOf(token: string): Option<Operator> {
    if token == "|" then Some(Pipe)
    else if token == "&&" then Some(AndThen)
    else if token == "||" then Some(OrElse)
    else if token == ";" then Some(Sequence)
    else None
  }

  /**
   * The loop state of `buildPipeline`. An empty `name` stands for the
   * source's null command (both are falsy); `index` is `commandIndex`.
   */
  datatype Builder = Builder(
    commands: seq<ParsedCommand>, operators: seq<Operator>, redirects: seq<Redirect>,
    name: string, args: seq<string>, flags: map<string, FlagValue>,
    pending: Option<RedirectKind>, index: nat)

  const InitialBuilder := Builder([], [], [], "", [], map[], None, 0)

  /** A flag token loses one leading '-', then one more if present. */
  function FlagBody(token: string): string
    requires StartsWith(token, "-")
  {
    var name := token[1..];
    if StartsWith(name, "-") then name[1..] else name
  }

  /** The (name, value) a flag token sets; with '=' the value is the second piece of `split('=', 2)`. */
  function FlagOf(token: string): (string, FlagValue)
    requires StartsWith(token, "-")
  {
    var body := FlagBody(token);
    if '=' in body then
      var pieces := Split(body, '=');
      (pieces[0], FlagText(pieces[1]))
    else (body, FlagTrue)
  }

  /** Closes the command in progress if it has a name. */
  function CloseCommand(b: Builder): Builder {
    if b.name != "" then
      b.(commands := b.commands + [ParsedCommand(b.name, b.args, b.flags)],
         index := b.index + 1, name := "", args := [], flags := map[])
    else b
  }

  /** One iteration of the `buildPipeline` loop. */
  function BuildStep(b: Builder, token: string): Builder {
    if b.pending.Some? then
      b.(redirects := b.redirects + [Redirect(b.pending.value, token, b.index)], pending := None)
    else if RedirectOf(token).Some? then b.(pending := RedirectOf(token))
    else if OperatorOf(token).Some? then
      var c := CloseCommand(b);
      c.(operators := c.operators + [OperatorOf(token).value])
    else if StartsWith(token, "-") then
      var (n, v) := FlagOf(token);
      b.(flags := b.flags[n := v])
    else if b.name == "" then b.(name := token)
    else b.(args := b.args + [token])
  }

  function BuildSteps(b: Builder, tokens: seq<string>): Builder
    decreases |tokens|
  {
    if |tokens| == 0 then b else BuildSteps(BuildStep(b, tokens[0]), tokens[1..])
  }

  /** `CommandParser.buildPipeline`. */
  function BuildPipeline(tokens: seq<string>): (p: Pipeline)
    ensures forall i :: 0 <= i < |p.redirects| ==> p.redirects[i].commandIndex <= |p.commands|
    ensures |p.commands| <= |p.operators| + 1
    ensures forall i :: 0 <= i < |p.commands| ==> ProperCommand(p.commands[i])
  {
    var b := BuildSteps(InitialBuilder, tokens);
    BuildStepsInvariant(InitialBuilder, tokens);
    var done := CloseCommand(b);
    Pipeline(done.commands, done.operators, done.redirects)
  }

  /** `CommandParser.parse`. */
  function Parse(input: string): Pipeline {
    BuildPipeline(Tokenize(input))
  }

  /** A command name is a non-empty non-flag token; arguments are non-flag tokens. */
  predicate ProperCommand(c: ParsedCommand) {
    c.command != "" && !StartsWith(c.command, "-")
    && forall j :: 0 <= j < |c.args| ==> !StartsWith(c.args[j], "-")
  }

  /** What the builder loop keeps true. */
  ghost predicate BuilderInvariant(b: Builder) {
    && b.index == |b.commands|
    && |b.commands| <= |b.operators|
    && (forall i :: 0 <= i < |b.redirects| ==> b.redirects[i].commandIndex <= b.index)
    && (forall i :: 0 <= i < |b.commands| ==> ProperCommand(b.commands[i]))
    && (b.name != "" ==> !StartsWith(b.name, "-"))
    && (b.name == "" ==> b.args == [])
    && (forall j :: 0 <= j < |b.args| ==> !StartsWith(b.args[j], "-"))
  }

  lemma {:induction false} BuildStepsInvariant(b: Builder, tokens: seq<string>)
    requires BuilderInvariant(b)
    ensures BuilderInvariant(BuildSteps(b, tokens))
    ensures var c := CloseCommand(BuildSteps(b, tokens));
      && (forall i :: 0 <= i < |c.redirects| ==> c.redirects[i].commandIndex <= |c.commands|)
      && |c.commands| <= |c.operators| + 1
      && (forall i :: 0 <= i < |c.commands| ==> ProperCommand(c.commands[i]))
    decreases |tokens|
  {
    if |tokens| > 0 {
      BuildStepsInvariant(BuildStep(b, tokens[0]), tokens[1..]);
    }
  }

  /** The token after a redirect operator is its target, whatever it is, and it applies to the
      command being built. */
  lemma RedirectTakesNextToken(b: Builder, op: string, target: string)
    requires b.pending.None? && RedirectOf(op).Some?
    ensures BuildSteps(b, [op, target]) ==
      b.(redirects := b.redirects + [Redirect(RedirectOf(op).value, target, b.index)])
  {
    assert [op, target][1..] == [target];
    assert [target][1..] == [];
    var b1 := BuildStep(b, op);
    assert b1 == b.(pending := RedirectOf(op));
    assert BuildSteps(b, [op, target]) == BuildSteps(b1, [target]) == BuildSteps(BuildStep(b1, target), []);
  }

  /** Operator tokens in order. */
  function OperatorTokens(tokens: seq<string>): seq<Operator>
  {
    if |tokens| == 0 then []
    else (if OperatorOf(tokens[0]).Some? then [OperatorOf(tokens[0]).value] else []) + OperatorTokens(tokens[1..])
  }

  /** Without redirect operators, every operator token appends exactly one operator, in order. */
  lemma {:induction false} OperatorsWithoutRedirects(b: Builder, tokens: seq<string>)
    requires b.pending.None?
    requires forall i :: 0 <= i < |tokens| ==> RedirectOf(tokens[i]).None?
    ensures BuildSteps(b, tokens).operators == b.operators + OperatorTokens(tokens)
    ensures BuildSteps(b, tokens).pending.None?
    decreases |tokens|
  {
    if |tokens| == 0 {
      assert b.operators + [] == b.operators;
    } else {
      var b1 := BuildStep(b, tokens[0]);
      var head := if OperatorOf(tokens[0]).Some? then [OperatorOf(tokens[0]).value] else [];
      assert b1.operators == b.operators + head && b1.pending.None?;
      OperatorsWithoutRedirects(b1, tokens[1..]);
      assert OperatorTokens(tokens) == head + OperatorTokens(tokens[1..]);
      assert b.operators + head + OperatorTokens(tokens[1..]) == b.operators + (head + OperatorTokens(tokens[1..]));
    }
  }

  /** A leading operator closes nothing, so there are at least as many operators as commands. */
  lemma LeadingOperator(tokens: seq<string>)
    requires |tokens| > 0 && OperatorOf(tokens[0]).Some?
    ensures |BuildPipeline(tokens).commands| <= |BuildPipeline(tokens).operators|
  {
    var b1 := BuildStep(InitialBuilder, tokens[0]);
    assert |b1.commands| + 1 <= |b1.operators|;
    BuildStepsSurplus(b1, tokens[1..]);
  }

  /** An operator that closed nothing stays an operator in surplus. */
  lemma {:induction false} BuildStepsSurplus(b: Builder, tokens: seq<string>)
    requires BuilderInvariant(b) && |b.commands| + 1 <= |b.operators|
    ensures var e := BuildSteps(b, tokens); BuilderInvariant(e) && |e.commands| + 1 <= |e.operators|
    decreases |tokens|
  {
    if |tokens| > 0 {
      BuildStepsSurplus(BuildStep(b, tokens[0]), tokens[1..]);
    }
  }

  /** For a flag `--name=value` with no '=' in `name`, the name is `name` and the value is the
      text up to the next '='. */
  lemma FlagWithValue(dashes: string, name: string, value: string)
    requires dashes == "-" || dashes == "--"
    requires !StartsWith(name, "-") && '=' !in name
    ensures FlagOf(dashes + name + "=" + value) == (name, FlagText(Split(value, '=')[0]))
  {
    var body := name + ['='] + value;
    assert dashes + name + "=" + value == dashes + body;
    assert !StartsWith(body, "-") by {
      if |name| > 0 { assert body[0] == name[0]; } else { assert body[0] == '='; }
    }
    FlagBodyAfterDashes(dashes, body);
    assert body[|name|] == '=';
    SplitConcatSep(name, value, '=');
    SplitNoSep(name, '=');
  }

  /** One or two dashes come off a token whose rest does not start with a dash. */
  lemma FlagBodyAfterDashes(dashes: string, rest: string)
    requires dashes == "-" || dashes == "--"
    requires !StartsWith(rest, "-")
    ensures StartsWith(dashes + rest, "-") && FlagBody(dashes + rest) == rest
  {
    var token := dashes + rest;
    if dashes == "-" {
      assert token[1..] == rest;
    } else {
      assert token[1..] == "-" + rest;
      assert token[1..][1..] == rest;
    }
  }

  /** A flag without '=' is set to true under its name, one or two dashes removed. */
  lemma FlagWithoutValue(dashes: string, name: string)
    requires dashes == "-" || dashes == "--"
    requires !StartsWith(name, "-") && '=' !in name
    ensures FlagOf(dashes + name) == (name, FlagTrue)
  {
    FlagBodyAfterDashes(dashes, name);
  }

  /** `-la` is the single flag `la`; `--name=v=w` sets `name` to "v". */
  lemma FlagExamples()
    ensures FlagOf("-la") == ("la", FlagTrue)
    ensures FlagOf("--name=v=w") == ("name", FlagText("v"))
  {
    ShortFlagExample();
    LongFlagExample();
  }

  lemma ShortFlagExample()
    ensures FlagOf("-la") == ("la", FlagTrue)
  {
    assert "la"[0] == 'l' && "la"[1] == 'a';
    FlagWithoutValue("-", "la");
    assert "-" + "la" == "-la";
  }

  lemma LongFlagExample()
    ensures FlagOf("--name=v=w") == ("name", FlagText("v"))
  {
    assert '=' !in "name" && '=' !in "v" && !StartsWith("name", "-") by {
      assert "name" == ['n', 'a', 'm', 'e'] && "v" == ['v'] && "name"[0] != "-"[0];
    }
    assert "--" + "name" + "=" + ("v" + ['='] + "w") == "--name=v=w";
    FlagValueUpToEquals("--", "name", "v", "w");
  }

  /** A flag's value stops at the next '='. */
  lemma FlagValueUpToEquals(dashes: string, name: string, v: string, w: string)
    requires dashes == "-" || dashes == "--"
    requires !StartsWith(name, "-") && '=' !in name && '=' !in v
    ensures FlagOf(dashes + name + "=" + (v + ['='] + w)) == (name, FlagText(v))
  {
    FlagWithValue(dashes, name, v + ['='] + w);
    SplitConcatSep(v, w, '=');
    SplitNoSep(v, '=');
  }

  // ---------------------------------------------------------------------------
  // Globs

  /** Characters the regular-expression `.` does not match. */
  predicate IsLineTerminator(c: char) {
    c == '\n' || c == '\r' || c == '\U{2028}' || c == '\U{2029}'
  }

  /** `s.replace(/c/g, r)`. */
  function ReplaceAll(s: string, c: char, r: string): string {
    if |s| == 0 then "" else (if s[0] == c then r else [s[0]]) + ReplaceAll(s[1..], c, r)
  }

  /** The body of the regular expression `parseGlob` builds from a pattern. */
  function GlobRegex(pattern: string): string {
    ReplaceAll(ReplaceAll(ReplaceAll(pattern, '.', "\\."), '*', ".*"), '?', ".")
  }

  /** One glob character's regular-expression text. */
  function GlobCharRegex(c: char): string {
    if c == '.' then "\\." else if c == '*' then ".*" else if c == '?' then "." else [c]
  }

  function TranslateGlob(pattern: string): string {
    if |pattern| == 0 then "" else GlobCharRegex(pattern[0]) + TranslateGlob(pattern[1..])
  }

  /**
   * Anchored matching for the regular expressions globs translate to:
   * `\c` is the literal c, `.*` any run and `.` any one character other than
   * a line terminator; any other character is itself.
   */
  function RegexMatch(rx: string, s: string): bool
    decreases |rx| + |s|
  {
    if |rx| == 0 then |s| == 0
    else if rx[0] == '\\' && |rx| >= 2 then |s| > 0 && s[0] == rx[1] && RegexMatch(rx[2..], s[1..])
    else if rx[0] == '.' && |rx| >= 2 && rx[1] == '*' then
      RegexMatch(rx[2..], s) || (|s| > 0 && !IsLineTerminator(s[0]) && RegexMatch(rx, s[1..]))
    else if rx[0] == '.' then |s| > 0 && !IsLineTerminator(s[0]) && RegexMatch(rx[1..], s[1..])
    else |s| > 0 && s[0] == rx[0] && RegexMatch(rx[1..], s[1..])
  }

  /** Glob semantics: `*` any run, `?` one character, anything else itself. */
  function GlobMatch(pattern: string, s: string): bool
    decreases |pattern| + |s|
  {
    if |pattern| == 0 then |s| == 0
    else if pattern[0] == '*' then
      GlobMatch(pattern[1..], s) || (|s| > 0 && !IsLineTerminator(s[0]) && GlobMatch(pattern, s[1..]))
    else if pattern[0] == '?' then |s| > 0 && !IsLineTerminator(s[0]) && GlobMatch(pattern[1..], s[1..])
    else |s| > 0 && s[0] == pattern[0] && GlobMatch(pattern[1..], s[1..])
  }

  /** `CommandParser.parseGlob`: the files the anchored regex accepts, in order. */
  function ParseGlob(pattern: string, files: seq<string>): (r: seq<string>)
    ensures |r| <= |files|
    ensures forall f :: f in r <==> f in files && RegexMatch(GlobRegex(pattern), f)
  {
    if |files| == 0 then []
    else
      (if RegexMatch(GlobRegex(pattern), files[0]) then [files[0]] else [])
      + ParseGlob(pattern, files[1..])
  }

  predicate HasWildcard(arg: string) {
    '*' in arg || '?' in arg
  }

  /** `CommandParser.expandGlobs`. */
  function ExpandGlobs(args: seq<string>, files: seq<string>): (r: seq<string>)
    ensures |r| >= |args|
  {
    if |args| == 0 then []
    else
      var arg := args[0];
      var here := if HasWildcard(arg) && |ParseGlob(arg, files)| > 0 then ParseGlob(arg, files) else [arg];
      here + ExpandGlobs(args[1..], files)
  }

  lemma {:induction false} ReplaceAllConcat(a: string, b: string, c: char, r: string)
    ensures ReplaceAll(a + b, c, r) == ReplaceAll(a, c, r) + ReplaceAll(b, c, r)
    decreases |a|
  {
    if |a| == 0 {
      assert a + b == b;
    } else {
      assert (a + b)[1..] == a[1..] + b;
      ReplaceAllConcat(a[1..], b, c, r);
    }
  }

  lemma ReplaceAllAbsent(s: string, c: char, r: string)
    requires c !in s
    ensures ReplaceAll(s, c, r) == s
  {
  }

  /** The three chained replacements act character by character. */
  lemma {:induction false} GlobRegexTranslates(pattern: string)
    ensures GlobRegex(pattern) == TranslateGlob(pattern)
    decreases |pattern|
  {
    if |pattern| > 0 {
      var c := pattern[0];
      var tail := pattern[1..];
      assert pattern == [c] + tail;
      GlobRegexTranslates(tail);
      var s1 := ReplaceAll(pattern, '.', "\\.");
      assert s1 == ReplaceAll([c], '.', "\\.") + ReplaceAll(tail, '.', "\\.") by {
        ReplaceAllConcat([c], tail, '.', "\\.");
      }
      var h1 := ReplaceAll([c], '.', "\\.");
      ReplaceAllConcat(h1, ReplaceAll(tail, '.', "\\."), '*', ".*");
      var h2 := ReplaceAll(h1, '*', ".*");
      ReplaceAllConcat(h2, ReplaceAll(ReplaceAll(tail, '.', "\\."), '*', ".*"), '?', ".");
      assert ReplaceAll(h2, '?', ".") == GlobCharRegex(c) by {
        if c == '.' {
          assert h1 == "\\.";
          ReplaceAllAbsent("\\.", '*', ".*");
          ReplaceAllAbsent("\\.", '?', ".");
        } else if c == '*' {
          assert h1 == "*";
          assert h2 == ".*";
          ReplaceAllAbsent(".*", '?', ".");
        }
      }
    }
  }

  /** Matching the translated regular expression is glob matching, for backslash-free patterns. */
  lemma {:induction false} TranslateMatches(pattern: string, s: string)
    requires '\\' !in pattern
    ensures RegexMatch(TranslateGlob(pattern), s) == GlobMatch(pattern, s)
    decreases |pattern| + |s|
  {
    if |pattern| > 0 {
      var c := pattern[0];
      var tail := pattern[1..];
      var rx := TranslateGlob(pattern);
      assert rx == GlobCharRegex(c) + TranslateGlob(tail);
      if c == '.' {
        assert rx[0] == '\\' && rx[1] == '.' && rx[2..] == TranslateGlob(tail);
        if |s| > 0 {
          TranslateMatches(tail, s[1..]);
        }
      } else if c == '*' {
        assert rx[0] == '.' && rx[1] == '*' && rx[2..] == TranslateGlob(tail);
        TranslateMatches(tail, s);
        if |s| > 0 {
          TranslateMatches(pattern, s[1..]);
        }
      } else if c == '?' {
        assert rx[0] == '.' && rx[1..] == TranslateGlob(tail);
        if |tail| > 0 {
          assert rx[1] == GlobCharRegex(tail[0])[0];
        }
        if |s| > 0 {
          TranslateMatches(tail, s[1..]);
        }
      } else {
        assert rx[0] == c && rx[1..] == TranslateGlob(tail);
        if |s| > 0 {
          TranslateMatches(tail, s[1..]);
        }
      }
    }
  }

  /** `parseGlob` keeps, in file order, exactly the files the glob matches. */
  lemma {:induction false} ParseGlobIsGlobFilter(pattern: string, files: seq<string>)
    requires '\\' !in pattern
    ensures ParseGlob(pattern, files) == GlobFilter(pattern, files)
    decreases |files|
  {
    if |files| > 0 {
      GlobRegexTranslates(pattern);
      TranslateMatches(pattern, files[0]);
      ParseGlobIsGlobFilter(pattern, files[1..]);
    }
  }

  function GlobFilter(pattern: string, files: seq<string>): seq<string> {
    if |files| == 0 then []
    else (if GlobMatch(pattern, files[0]) then [files[0]] else []) + GlobFilter(pattern, files[1..])
  }

  /** A pattern without wildcards matches only itself. */
  lemma {:induction false} GlobLiteral(pattern: string, s: string)
    requires !HasWildcard(pattern)
    ensures GlobMatch(pattern, s) <==> s == pattern
    decreases |pattern|
  {
    if |pattern| > 0 && |s| > 0 {
      GlobLiteral(pattern[1..], s[1..]);
      HeadTail(pattern);
      HeadTail(s);
    }
  }

  predicate NoLineTerminator(s: string) {
    forall i :: 0 <= i < |s| ==> !IsLineTerminator(s[i])
  }

  lemma NoLineTerminatorTail(t: string)
    requires |t| > 0 && NoLineTerminator(t)
    ensures NoLineTerminator(t[1..])
  {
    assert forall i :: 0 <= i < |t| - 1 ==> t[1..][i] == t[i + 1];
  }

  /** `*` matches a run of any length free of line terminators. */
  lemma {:induction false} GlobStar(rest: string, s: string)
    ensures GlobMatch("*" + rest, s) <==>
      exists k :: 0 <= k <= |s| && NoLineTerminator(s[..k]) && GlobMatch(rest, s[k..])
    decreases |s|
  {
    var p := "*" + rest;
    assert p[1..] == rest;
    if GlobMatch(p, s) {
      if GlobMatch(rest, s) {
        assert s[..0] == [] && s[0..] == s;
      } else {
        GlobStar(rest, s[1..]);
        var k :| 0 <= k <= |s[1..]| && NoLineTerminator(s[1..][..k]) && GlobMatch(rest, s[1..][k..]);
        assert s[..k + 1] == [s[0]] + s[1..][..k];
        assert s[k + 1..] == s[1..][k..];
      }
    }
    if exists k :: 0 <= k <= |s| && NoLineTerminator(s[..k]) && GlobMatch(rest, s[k..]) {
      var k :| 0 <= k <= |s| && NoLineTerminator(s[..k]) && GlobMatch(rest, s[k..]);
      if k == 0 {
        assert s[0..] == s;
      } else {
        assert s[..k][0] == s[0];
        NoLineTerminatorTail(s[..k]);
        assert s[..k][1..] == s[1..][..k - 1];
        assert s[1..][k - 1..] == s[k..];
        GlobStar(rest, s[1..]);
      }
    }
  }

  /** `expandGlobs` passes arguments without wildcards through unchanged. */
  lemma {:induction false} ExpandGlobsPlain(args: seq<string>, files: seq<string>)
    requires forall i :: 0 <= i < |args| ==> !HasWildcard(args[i])
    ensures ExpandGlobs(args, files) == args
    decreases |args|
  {
    if |args| > 0 {
      ExpandGlobsPlain(args[1..], files);
      HeadTail(args);
    }
  }

  /** A glob argument is replaced by its matches in file order, or kept verbatim when none match. */
  lemma ExpandGlobsHead(arg: string, rest: seq<string>, files: seq<string>)
    requires HasWildcard(arg) && '\\' !in arg
    ensures var matches := GlobFilter(arg, files);
      ExpandGlobs([arg] + rest, files) ==
        (if |matches| > 0 then matches else [arg]) + ExpandGlobs(rest, files)
  {
    ParseGlobIsGlobFilter(arg, files);
    assert ([arg] + rest)[1..] == rest;
  }
}
