/**
 * `Terminal`: the log of lines a session shows, and the prompt string. Each input line goes to
 * the executor exactly as typed — the terminal resolves no aliases — and its result adds at
 * most an output line and an error line after the echoed input. Line ids and timestamps are
 * not modelled.
 */
module Terminal {
  import opened Wrappers
  import opened Filesystem
  import Executor

  datatype Kind = Input | Output | Error

  /** A `TerminalLine` without its id and timestamp. */
  datatype Line = Line(kind: Kind, content: string)

  /** The terminal's state: its log and the executor (which holds the filesystem). */
  datatype Term = Term(lines: seq<Line>, ex: Executor.Executor)

  /** The constructor: an executor over the given filesystem, and an empty log. */
  function New(fs: FS): (t: Term)
    ensures t.lines == [] && t.ex.fs == fs && t.ex.commands == []
  {
    Term([], Executor.New(fs))
  }

  /** The lines one command adds to the log, given the executor's result. */
  function Block(input: string, res: Executor.CommandResult): (b: seq<Line>)
    ensures 1 <= |b| <= 3 && b[0] == Line(Input, input)
    ensures forall k :: 1 <= k < |b| ==> b[k].kind != Input && b[k].content != ""
    ensures Line(Output, res.output) in b <==> res.output != ""
    ensures Line(Error, res.error) in b <==> res.error != ""
    ensures forall k :: 1 <= k < |b| ==> b[k] == Line(Output, res.output) || b[k] == Line(Error, res.error)
    ensures |b| == 3 ==> b[1].kind == Output && b[2].kind == Error
  {
    [Line(Input, input)]
      + (if res.output != "" then [Line(Output, res.output)] else [])
      + (if res.error != "" then [Line(Error, res.error)] else [])
  }

  /** `executeCommand`: the input is logged first, then handed to the executor unchanged. The
      source's catch around the executor is never reached, since `execute` returns every
      failure as a result. */
  function ExecuteCommand(t: Term, input: string, now: nat, scripts: Executor.Scripts): (r: Term)
    ensures |t.lines| + 1 <= |r.lines| <= |t.lines| + 3
    ensures r.lines[..|t.lines|] == t.lines
    ensures r.lines[|t.lines|] == Line(Input, input)
    ensures r.ex.commands == t.ex.commands
  {
    var (ex', res) := Executor.Execute(t.ex, input, now, scripts);
    Term(t.lines + Block(input, res), ex')
  }

  /** `clearLines`: the log empties; the filesystem and environment stay. */
  function ClearLines(t: Term): (r: Term)
    ensures r.lines == [] && r.ex == t.ex
  {
    t.(lines := [])
  }

  /** `getPrompt`: the user from the env (`user` when unset or empty), the working directory,
      and `$ `. */
  function GetPrompt(t: Term): (r: string)
    ensures |r| >= 4 && r[|r| - 2..] == "$ "
  {
    var user := match Executor.GetEnv(t.ex, "USER") case Some(u) => if u == "" then "user" else u case None => "user";
    user + ":" + GetCwd(t.ex.fs) + "$ "
  }

  /** How many input lines a log holds. */
  function Inputs(lines: seq<Line>): nat
    decreases |lines|
  {
    if |lines| == 0 then 0 else (if lines[|lines| - 1].kind == Input then 1 else 0) + Inputs(lines[..|lines| - 1])
  }

  /** A session: the inputs run one after another. */
  function Session(t: Term, inputs: seq<string>, now: nat, scripts: Executor.Scripts): Term
    decreases |inputs|
  {
    if |inputs| == 0 then t else Session(ExecuteCommand(t, inputs[0], now, scripts), inputs[1..], now, scripts)
  }

  // ---------------------------------------------------------------------------
  // properties

  /** One more line counts as an input exactly when it is one. */
  lemma InputsSnoc(lines: seq<Line>, l: Line)
    ensures Inputs(lines + [l]) == Inputs(lines) + (if l.kind == Input then 1 else 0)
  {
    assert (lines + [l])[..|lines|] == lines;
  }

  /** Exactly one input line per command: outputs and errors are never logged as input. */
  lemma InputsOfBlock(lines: seq<Line>, input: string, res: Executor.CommandResult)
    ensures Inputs(lines + Block(input, res)) == Inputs(lines) + 1
  {
    var o := Line(Output, res.output);
    var e := Line(Error, res.error);
    var l1 := lines + [Line(Input, input)];
    InputsSnoc(lines, Line(Input, input));
    var l2 := if res.output != "" then l1 + [o] else l1;
    if res.output != "" {
      InputsSnoc(l1, o);
    }
    var l3 := if res.error != "" then l2 + [e] else l2;
    if res.error != "" {
      InputsSnoc(l2, e);
    }
    assert l3 == lines + Block(input, res);
  }

  /** A session of n commands logs exactly n input lines, in between n and 3n lines, and keeps
      what was logged before. */
  lemma SessionLogsEveryInput(t: Term, inputs: seq<string>, now: nat, scripts: Executor.Scripts)
    ensures var r := Session(t, inputs, now, scripts);
      && Inputs(r.lines) == Inputs(t.lines) + |inputs|
      && |t.lines| + |inputs| <= |r.lines| <= |t.lines| + 3 * |inputs|
      && r.lines[..|t.lines|] == t.lines
  {
    SessionInputs(t, inputs, now, scripts);
    SessionKeepsLog(t, inputs, now, scripts);
  }

  lemma {:induction false} SessionInputs(t: Term, inputs: seq<string>, now: nat, scripts: Executor.Scripts)
    ensures Inputs(Session(t, inputs, now, scripts).lines) == Inputs(t.lines) + |inputs|
    decreases |inputs|
  {
    if |inputs| > 0 {
      var res := Executor.Execute(t.ex, inputs[0], now, scripts).1;
      InputsOfBlock(t.lines, inputs[0], res);
      SessionInputs(ExecuteCommand(t, inputs[0], now, scripts), inputs[1..], now, scripts);
    }
  }

  lemma {:induction false} SessionKeepsLog(t: Term, inputs: seq<string>, now: nat, scripts: Executor.Scripts)
    ensures var r := Session(t, inputs, now, scripts);
      && |t.lines| + |inputs| <= |r.lines| <= |t.lines| + 3 * |inputs|
      && r.lines[..|t.lines|] == t.lines
    decreases |inputs|
  {
    if |inputs| > 0 {
      var t1 := ExecuteCommand(t, inputs[0], now, scripts);
      SessionKeepsLog(t1, inputs[1..], now, scripts);
      var r := Session(t1, inputs[1..], now, scripts);
      assert r.lines[..|t.lines|] == r.lines[..|t1.lines|][..|t.lines|];
    }
  }

  /** The command's text reaches the executor unchanged: what the terminal logs after the input
      line is exactly the executor's result for that same text. */
  lemma ResultIsLogged(t: Term, input: string, now: nat, scripts: Executor.Scripts)
    ensures var r := ExecuteCommand(t, input, now, scripts);
      var res := Executor.Execute(t.ex, input, now, scripts).1;
      && (Line(Output, res.output) in r.lines[|t.lines|..] <==> res.output != "")
      && (Line(Error, res.error) in r.lines[|t.lines|..] <==> res.error != "")
      && r.ex == Executor.Execute(t.ex, input, now, scripts).0
  {
    var res := Executor.Execute(t.ex, input, now, scripts).1;
    var r := ExecuteCommand(t, input, now, scripts);
    assert r.lines[|t.lines|..] == Block(input, res);
  }

  /** After `clearLines` the next command's input is the first line of the log. */
  lemma ClearThenExecute(t: Term, input: string, now: nat, scripts: Executor.Scripts)
    ensures ExecuteCommand(ClearLines(t), input, now, scripts).lines[0] == Line(Input, input)
  {
  }

  /** The prompt names the env's USER when it is set and non-empty, and `user` otherwise. */
  lemma PromptUser(t: Term, u: string)
    ensures Executor.GetEnv(t.ex, "USER") == Some(u) && u != "" ==> GetPrompt(t) == u + ":" + GetCwd(t.ex.fs) + "$ "
    ensures Executor.GetEnv(t.ex, "USER") in {None, Some("")} ==> GetPrompt(t) == "user:" + GetCwd(t.ex.fs) + "$ "
  {
  }

  /** `setEnv('USER', u)` shows in the next prompt. */
  lemma PromptAfterSetUser(t: Term, u: string)
    requires u != ""
    ensures GetPrompt(t.(ex := Executor.SetEnv(t.ex, "USER", u))) == u + ":" + GetCwd(t.ex.fs) + "$ "
  {
    Executor.SetEnvThenGet(t.ex, "USER", u, "USER");
  }

  /** A fresh terminal's prompt is `user:` followed by the working directory. */
  lemma FreshPrompt(fs: FS)
    ensures GetPrompt(New(fs)) == "user:" + GetCwd(fs) + "$ "
  {
  }
}
