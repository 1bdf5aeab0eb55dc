/**
 * `CommandExecutor`: the command registry, the shared environment and filesystem, and the
 * run of one input line — parse, then stage by stage with `|`, `&&`, `||` and `;`, with
 * `<`, `>` and `>>` redirects. Commands the model does not define and scripts found in the
 * filesystem are oracles: functions from the options they are given to what they return.
 */
module Executor {
  import opened Wrappers
  import opened Strings
  import opened OrderedMap
  import opened Filesystem
  import opened Parser
  import opened Shell
  import Builtins
  import TextCommands

  /** How a command given from outside ends: it returns (exit code and the text written to its
      two streams) or throws; either way it may have changed the shared filesystem and
      environment first. */
  datatype Reply =
    | Returned(exitCode: int, stdout: string, stderr: string, fs: FS, env: Env)
    | Threw(message: string, fs: FS, env: Env)

  /** A registered command: the name it registers under and its `execute`. */
  datatype Command = Command(name: string, run: Invocation -> Reply)

  /** A built-in as the registry holds it. The executor keeps a built-in's stdout text and
      drops its returned `output`; a built-in writes nothing to stderr. */
  function BuiltinCommand(b: Builtins.Builtin): Command {
    Command(Builtins.Name(b), inv => var o := Builtins.Run(b, inv); Returned(o.exitCode, o.stdout, "", o.fs, o.env))
  }

  /** `CommandResult`; an absent `output` or `error` is the empty string, which every reader
      treats the same way. */
  datatype CommandResult = CommandResult(exitCode: int, output: string, error: string)

  /** The registry in registration order, the filesystem, and the env record. */
  datatype Executor = Executor(commands: Entries<string, Command>, fs: FS, env: Env)

  /** What evaluating a script's text yields when it is worth running: an evaluation error, or
      an `execute` function. */
  datatype Module = EvalFailed(message: string) | Exports(run: Invocation -> Reply)

  /** The JavaScript evaluator, seen from outside: the module a script text evaluates to, or
      nothing when that module has no `execute` function. */
  type Scripts = string -> Option<Module>

  const InitialEnv: Env := [("HOME", "/home"), ("PATH", "/bin"), ("USER", "user")]

  /** The constructor: no commands, and the env seeded with HOME, PATH and USER. */
  function New(fs: FS): (ex: Executor)
    ensures ex.commands == [] && ex.fs == fs
    ensures Get(ex.env, "HOME") == Some("/home")
    ensures Get(ex.env, "PATH") == Some("/bin")
    ensures Get(ex.env, "USER") == Some("user")
    ensures UniqueKeys(ex.env)
  {
    Executor([], fs, InitialEnv)
  }

  /** `registerCommand`: a command under an existing name replaces the earlier one. */
  function Register(ex: Executor, c: Command): Executor {
    ex.(commands := Put(ex.commands, c.name, c))
  }

  function GetCommand(ex: Executor, name: string): Option<Command> {
    Get(ex.commands, name)
  }

  function SetEnv(ex: Executor, key: string, value: string): Executor {
    ex.(env := Put(ex.env, key, value))
  }

  function GetEnv(ex: Executor, key: string): Option<string> {
    Get(ex.env, key)
  }

  /** Registers the command each element of a list stands for, in order. */
  function RegisterEach<T>(ex: Executor, xs: seq<T>, f: T -> Command): Executor
    decreases |xs|
  {
    if |xs| == 0 then ex else RegisterEach(Register(ex, f(xs[0])), xs[1..], f)
  }

  /** `registerBuiltInCommands`. */
  function RegisterBuiltIns(ex: Executor): Executor {
    RegisterEach(ex, Builtins.Registered, BuiltinCommand)
  }

  // ---------------------------------------------------------------------------
  // registry and environment

  /** Registering makes the command the one found under its name and hides no other. */
  lemma RegisterThenGet(ex: Executor, c: Command, name: string)
    ensures GetCommand(Register(ex, c), c.name) == Some(c)
    ensures name != c.name ==> GetCommand(Register(ex, c), name) == GetCommand(ex, name)
  {
    GetPut(ex.commands, c.name, c, c.name);
    GetPut(ex.commands, c.name, c, name);
  }

  /** `setEnv` then `getEnv` reads the value back; other keys are unaffected. */
  lemma SetEnvThenGet(ex: Executor, key: string, value: string, other: string)
    ensures GetEnv(SetEnv(ex, key, value), key) == Some(value)
    ensures other != key ==> GetEnv(SetEnv(ex, key, value), other) == GetEnv(ex, other)
  {
    GetPut(ex.env, key, value, key);
    GetPut(ex.env, key, value, other);
  }

  /** Registering a list: when no other element stands for a command of the same name, an
      element's command is found under its name afterwards; a name no element's command has is
      untouched. */
  lemma {:induction false} RegisterEachFinds<T>(ex: Executor, xs: seq<T>, f: T -> Command, x: T, name: string)
    requires forall y :: f(y).name == f(x).name ==> y == x
    ensures x in xs ==> GetCommand(RegisterEach(ex, xs, f), f(x).name) == Some(f(x))
    ensures (forall y :: y in xs ==> f(y).name != name) ==> GetCommand(RegisterEach(ex, xs, f), name) == GetCommand(ex, name)
    decreases |xs|
  {
    if |xs| > 0 {
      var ex1 := Register(ex, f(xs[0]));
      HeadTail(xs);
      RegisterEachFinds(ex1, xs[1..], f, x, name);
      RegisterThenGet(ex, f(xs[0]), name);
      if x !in xs[1..] && x in xs {
        RegisterEachFinds(ex1, xs[1..], f, x, f(x).name);
        RegisterThenGet(ex, f(xs[0]), f(x).name);
      }
    }
  }

  /** The same for a list whose commands are named by an injective function of the elements. */
  lemma RegisterEachNamed<T>(ex: Executor, xs: seq<T>, f: T -> Command, name: T -> string, x: T)
    requires forall y :: f(y).name == name(y)
    requires forall y, z :: name(y) == name(z) ==> y == z
    ensures x in xs ==> GetCommand(RegisterEach(ex, xs, f), name(x)) == Some(f(x))
    ensures x !in xs ==> GetCommand(RegisterEach(ex, xs, f), name(x)) == GetCommand(ex, name(x))
  {
    RegisterEachFinds(ex, xs, f, x, name(x));
  }

  /** After `registerBuiltInCommands` each command of the built-in list is found under its
      name; other names, the prompt commands' among them, are as they were. */
  lemma RegisterBuiltInsFinds(ex: Executor, b: Builtins.Builtin)
    ensures b in Builtins.Registered ==> GetCommand(RegisterBuiltIns(ex), Builtins.Name(b)) == Some(BuiltinCommand(b))
    ensures b !in Builtins.Registered ==> GetCommand(RegisterBuiltIns(ex), Builtins.Name(b)) == GetCommand(ex, Builtins.Name(b))
  {
    Builtins.NamesInjective();
    RegisterEachNamed(ex, Builtins.Registered, BuiltinCommand, Builtins.Name, b);
  }

  // ---------------------------------------------------------------------------
  // one command

  /** A built-in returns (it never throws) with exit code 0, 1 or 130, writes nothing to
      stderr, and its stdout text, filesystem and env are those of the command itself. */
  lemma BuiltinReplies(b: Builtins.Builtin, inv: Invocation)
    ensures var r := BuiltinCommand(b).run(inv);
      && r.Returned? && r.stderr == "" && r.exitCode in {0, 1, 130}
      && r.exitCode == Builtins.Run(b, inv).exitCode && r.stdout == Builtins.Run(b, inv).stdout
      && r.fs == Builtins.Run(b, inv).fs && r.env == Builtins.Run(b, inv).env
  {
  }

  /** The first redirect of a kind. */
  function FirstOf(rs: seq<Redirect>, input: bool): (r: Option<Redirect>)
    ensures r.Some? ==> r.value in rs && (r.value.kind == ReadFrom <==> input)
    ensures r.None? ==> forall i :: 0 <= i < |rs| ==> (rs[i].kind == ReadFrom <==> !input)
    decreases |rs|
  {
    if |rs| == 0 then None
    else if (rs[0].kind == ReadFrom) == input then Some(rs[0])
    else FirstOf(rs[1..], input)
  }

  /** Writing a command's stdout text to an output redirect's target: `>` replaces the file,
      `>>` appends to what is there (nothing when the path does not exist). */
  function Redirected(fs: FS, r: Redirect, out: string, now: nat): Result<FS> {
    if r.kind == Overwrite then WriteFile(fs, r.target, out, now)
    else
      var existing := if Exists(fs, r.target) then ReadFile(fs, r.target) else Ok("");
      match existing
      case Err(e) => Err(e)
      case Ok(prev) => WriteFile(fs, r.target, prev + out, now)
  }

  /** The state after a command's reply. */
  function After(ex: Executor, reply: Reply): Executor {
    ex.(fs := reply.fs, env := reply.env)
  }

  /** The options a command is run with; the executor passes none of the optional
      collaborators. */
  function OptionsFor(ex: Executor, cmd: ParsedCommand, flags: map<string, FlagValue>, stdin: string, now: nat): Invocation {
    Invocation(cmd.args, flags, stdin, GetCwd(ex.fs), ex.env, ex.fs, now, NoExtras)
  }

  /** What a candidate path offers: nothing when it is missing or does not read as a file,
      otherwise whatever its text evaluates to. */
  function Probe(fs: FS, path: string, scripts: Scripts): Option<Module> {
    if !Exists(fs, path) then None
    else
      match ReadFile(fs, path)
      case Err(_) => None
      case Ok(text) => scripts(text)
  }

  /** The first candidate that offers something. */
  function FirstFound<T>(ms: seq<Option<T>>): (r: Option<T>)
    ensures r.None? <==> forall k :: 0 <= k < |ms| ==> ms[k].None?
    ensures r.Some? ==> r in ms
    decreases |ms|
  {
    if |ms| == 0 then None
    else if ms[0].Some? then ms[0]
    else FirstFound(ms[1..])
  }

  /** The lookup order: the name resolved against the working directory, then `/bin/<name>`,
      then `/bin/<name>.js`. */
  function ScriptPaths(ex: Executor, name: string): seq<string> {
    [ResolvePathFrom(ex.fs, name, GetCwd(ex.fs)), "/bin/" + name, "/bin/" + name + ".js"]
  }

  /** Running a script's module: an evaluation error, or an `execute` that throws, becomes exit
      code 1 with a message naming the command; otherwise the script's own result. Scripts get
      no flags. */
  function RunModule(ex: Executor, m: Module, name: string, args: seq<string>, stdin: string, now: nat): (r: (Executor, CommandResult))
    ensures m.EvalFailed? ==> r == (ex, CommandResult(1, "", "Failed to execute " + name + ": Failed to evaluate module: " + m.message))
    ensures r.0.commands == ex.commands
  {
    match m
    case EvalFailed(msg) => (ex, CommandResult(1, "", "Failed to execute " + name + ": Failed to evaluate module: " + msg))
    case Exports(run) =>
      var reply := run(Invocation(args, map[], stdin, GetCwd(ex.fs), ex.env, ex.fs, now, NoExtras));
      match reply
      case Returned(code, out, err, _, _) => (After(ex, reply), CommandResult(code, out, err))
      case Threw(msg, _, _) => (After(ex, reply), CommandResult(1, "", "Failed to execute " + name + ": " + msg))
  }

  /** What each candidate path offers, in lookup order. */
  function Candidates(ex: Executor, name: string, scripts: Scripts): (ms: seq<Option<Module>>)
    ensures |ms| == 3
    ensures forall k :: 0 <= k < 3 ==> ms[k] == Probe(ex.fs, ScriptPaths(ex, name)[k], scripts)
  {
    var paths := ScriptPaths(ex, name);
    seq(3, k requires 0 <= k < 3 => Probe(ex.fs, paths[k], scripts))
  }

  /** `executeFromFilesystem`: the first candidate path holding a script decides. */
  function FromFilesystem(ex: Executor, name: string, args: seq<string>, stdin: string, now: nat, scripts: Scripts): (r: Option<(Executor, CommandResult)>)
    ensures r.None? <==> forall k :: 0 <= k < 3 ==> Candidates(ex, name, scripts)[k].None?
    ensures r.Some? ==> r.value.0.commands == ex.commands
  {
    match FirstFound(Candidates(ex, name, scripts))
    case None => None
    case Some(m) => Some(RunModule(ex, m, name, args, stdin, now))
  }

  /** A name nobody registered: a script from the filesystem, or exit code 127. */
  function Unregistered(ex: Executor, cmd: ParsedCommand, stdin: string, now: nat, scripts: Scripts): (r: (Executor, CommandResult))
    ensures FromFilesystem(ex, cmd.command, cmd.args, stdin, now, scripts).None? ==>
      r == (ex, CommandResult(127, "", "Command not found: " + cmd.command))
    ensures r.0.commands == ex.commands
  {
    match FromFilesystem(ex, cmd.command, cmd.args, stdin, now, scripts)
    case Some(found) => found
    case None => (ex, CommandResult(127, "", "Command not found: " + cmd.command))
  }

  /** The output redirect after a command returned: a successful write leaves exit code 0 and
      nothing to print, a failed one exit code 1 and the filesystem as it was. */
  function Deliver(ex: Executor, rd: Redirect, out: string, now: nat): (r: (Executor, CommandResult))
    ensures r.1.exitCode == 0 <==> Redirected(ex.fs, rd, out, now).Ok?
    ensures r.1.exitCode == 0 ==> r.1 == CommandResult(0, "", "") && r.0 == ex.(fs := Redirected(ex.fs, rd, out, now).value)
    ensures r.1.exitCode != 0 ==> r == (ex, CommandResult(1, "", "Failed to write to file: " + rd.target))
  {
    match Redirected(ex.fs, rd, out, now)
    case Ok(fs') => (ex.(fs := fs'), CommandResult(0, "", ""))
    case Err(_) => (ex, CommandResult(1, "", "Failed to write to file: " + rd.target))
  }

  /** A registered command: the `<` redirect (a failed read ends the stage before the command
      runs), the command itself, then the `>` or `>>` redirect, which swallows its output. A
      throw becomes exit code 1 with the message. */
  function Invoke(ex: Executor, c: Command, cmd: ParsedCommand, redirects: seq<Redirect>, stdin: string, now: nat): (r: (Executor, CommandResult))
    ensures FirstOf(redirects, false).Some? && r.1.exitCode != 1 ==> r.1 == CommandResult(0, "", "")
    ensures r.0.commands == ex.commands
  {
    var input := FirstOf(redirects, true);
    var stdin' := if input.Some? then ReadFile(ex.fs, input.value.target) else Ok(stdin);
    match stdin'
    case Err(_) => (ex, CommandResult(1, "", "Failed to read input file: " + input.value.target))
    case Ok(text) =>
      var reply := c.run(OptionsFor(ex, cmd, cmd.flags, text, now));
      var ex' := After(ex, reply);
      match reply
      case Threw(m, _, _) => (ex', CommandResult(1, "", m))
      case Returned(code, out, err, _, _) =>
        match FirstOf(redirects, false)
        case None => (ex', CommandResult(code, out, err))
        case Some(rd) => Deliver(ex', rd, out, now)
  }

  /** `executeSingleCommand`. */
  function Single(ex: Executor, cmd: ParsedCommand, redirects: seq<Redirect>, stdin: string, now: nat, scripts: Scripts): (r: (Executor, CommandResult))
    ensures r.0.commands == ex.commands
  {
    match GetCommand(ex, cmd.command)
    case None => Unregistered(ex, cmd, stdin, now, scripts)
    case Some(c) => Invoke(ex, c, cmd, redirects, stdin, now)
  }

  // ---------------------------------------------------------------------------
  // a line of stages

  /** `operators[i - 1]`: nothing before the first stage. */
  function OperatorBefore(p: Pipeline, i: nat): Option<Operator> {
    if 1 <= i <= |p.operators| then Some(p.operators[i - 1]) else None
  }

  /** The loop breaks before a stage after `&&` when the last exit code is non-zero, and
      before a stage after `||` when it is zero. */
  predicate Stops(op: Option<Operator>, lastExit: int) {
    (op == Some(AndThen) && lastExit != 0) || (op == Some(OrElse) && lastExit == 0)
  }

  /** The redirects a stage of a multi-stage line sees: only those with its own index. */
  function StageRedirects(p: Pipeline, i: nat): (r: seq<Redirect>)
    ensures forall k :: 0 <= k < |r| ==> r[k].commandIndex == i && r[k] in p.redirects
    ensures forall k :: 0 <= k < |p.redirects| && p.redirects[k].commandIndex == i ==> p.redirects[k] in r
  {
    Filter(p.redirects, (rd: Redirect) => rd.commandIndex == i)
  }

  /** The stdin a stage reads: after `|` the previous result's output, otherwise nothing. */
  function StageInput(p: Pipeline, i: nat, last: CommandResult): string {
    if OperatorBefore(p, i) == Some(Pipe) then last.output else ""
  }

  /** The `executePipeline` loop from stage i on, given the last result. The index is where
      the loop ended: short of the last stage only when an `&&` or `||` guard broke it there,
      and the line's result is the last one run. */
  function Stages(ex: Executor, p: Pipeline, i: nat, last: CommandResult, now: nat, scripts: Scripts): (r: (Executor, CommandResult, nat))
    requires i <= |p.commands|
    ensures i <= r.2 <= |p.commands|
    ensures r.2 < |p.commands| ==> Stops(OperatorBefore(p, r.2), r.1.exitCode)
    ensures r.2 == i ==> r.0 == ex && r.1 == last
    ensures r.0.commands == ex.commands
    decreases |p.commands| - i
  {
    if i == |p.commands| || Stops(OperatorBefore(p, i), last.exitCode) then (ex, last, i)
    else
      var step := Single(ex, p.commands[i], StageRedirects(p, i), StageInput(p, i, last), now, scripts);
      Stages(step.0, p, i + 1, step.1, now, scripts)
  }

  /** `executePipeline`: a lone command with no operator sees every redirect and runs
      directly; anything else goes through the loop, starting from exit code 0. */
  function RunPipeline(ex: Executor, p: Pipeline, now: nat, scripts: Scripts): (Executor, CommandResult)
    requires |p.commands| > 0
  {
    if |p.commands| == 1 && |p.operators| == 0 then Single(ex, p.commands[0], p.redirects, "", now, scripts)
    else
      var (ex', res, _) := Stages(ex, p, 0, CommandResult(0, "", ""), now, scripts);
      (ex', res)
  }

  /** `execute`: a line with no command succeeds with no output. The source's catch around the
      pipeline is never reached, since every step inside catches its own errors. */
  function Execute(ex: Executor, input: string, now: nat, scripts: Scripts): (r: (Executor, CommandResult))
    ensures |Parse(input).commands| == 0 ==> r == (ex, CommandResult(0, "", ""))
    ensures r.0.commands == ex.commands
  {
    var p := Parse(input);
    if |p.commands| == 0 then (ex, CommandResult(0, "", "")) else RunPipeline(ex, p, now, scripts)
  }

  // ---------------------------------------------------------------------------
  // properties of a line

  /** With no `&&` or `||` among the operators, every stage runs. */
  lemma AllStagesRun(ex: Executor, p: Pipeline, i: nat, last: CommandResult, now: nat, scripts: Scripts)
    requires i <= |p.commands|
    requires forall k :: 0 <= k < |p.operators| ==> p.operators[k] != AndThen && p.operators[k] != OrElse
    ensures Stages(ex, p, i, last, now, scripts).2 == |p.commands|
  {
    var r := Stages(ex, p, i, last, now, scripts);
    var k := r.2;
    assert !Stops(OperatorBefore(p, k), r.1.exitCode) by {
      if 1 <= k <= |p.operators| {
        assert p.operators[k - 1] != AndThen && p.operators[k - 1] != OrElse;
      }
    }
  }

  /** A failing stage before `&&` ends the whole line there: no later stage runs, even one
      after a `;`, and the line's result is the failure. */
  lemma AndThenAbortsLine(ex: Executor, p: Pipeline, i: nat, last: CommandResult, now: nat, scripts: Scripts)
    requires 0 < i < |p.commands| && i <= |p.operators|
    requires p.operators[i - 1] == AndThen && last.exitCode != 0
    ensures Stages(ex, p, i, last, now, scripts) == (ex, last, i)
  {
  }

  /** After `|` a stage reads exactly the previous stage's output; after any other operator,
      and at the first stage, it reads nothing. */
  lemma PipeFeedsInput(p: Pipeline, i: nat, last: CommandResult)
    ensures i > 0 && i <= |p.operators| && p.operators[i - 1] == Pipe ==> StageInput(p, i, last) == last.output
    ensures i == 0 || i > |p.operators| || p.operators[i - 1] != Pipe ==> StageInput(p, i, last) == ""
  {
  }

  /** The first candidate that offers something is the one found. */
  lemma {:induction false} FirstFoundAt<T>(ms: seq<Option<T>>, k: nat)
    requires k < |ms| && ms[k].Some?
    requires forall j :: 0 <= j < k ==> ms[j].None?
    ensures FirstFound(ms) == ms[k]
    decreases k
  {
    if k > 0 {
      assert ms[1..][k - 1] == ms[k];
      FirstFoundAt(ms[1..], k - 1);
    }
  }

  /** The script found is the one at the first candidate path that holds one. */
  lemma FirstScriptWins(ex: Executor, name: string, args: seq<string>, stdin: string, now: nat, scripts: Scripts, k: nat)
    requires k < 3 && Probe(ex.fs, ScriptPaths(ex, name)[k], scripts).Some?
    requires forall j :: 0 <= j < k ==> Probe(ex.fs, ScriptPaths(ex, name)[j], scripts).None?
    ensures FromFilesystem(ex, name, args, stdin, now, scripts)
      == Some(RunModule(ex, Probe(ex.fs, ScriptPaths(ex, name)[k], scripts).value, name, args, stdin, now))
  {
    FirstFoundAt(Candidates(ex, name, scripts), k);
  }

  /** A name that is neither registered nor a script anywhere on the lookup path exits 127. */
  lemma CommandNotFound(ex: Executor, cmd: ParsedCommand, redirects: seq<Redirect>, stdin: string, now: nat, scripts: Scripts)
    requires GetCommand(ex, cmd.command).None?
    requires forall k :: 0 <= k < 3 ==> Probe(ex.fs, ScriptPaths(ex, cmd.command)[k], scripts).None?
    ensures Single(ex, cmd, redirects, stdin, now, scripts) == (ex, CommandResult(127, "", "Command not found: " + cmd.command))
  {
  }

  /** A `>` redirect that succeeds leaves the stdout text as the file's content. */
  lemma OverwriteWrites(fs: FS, rd: Redirect, out: string, now: nat)
    requires rd.kind == Overwrite && Redirected(fs, rd, out, now).Ok? && Target(fs, rd.target) != []
    ensures ReadFile(Redirected(fs, rd, out, now).value, rd.target) == Ok(out)
  {
    WriteFileReadBack(fs, rd.target, out, now);
  }

  /** A `>>` redirect onto an existing file succeeds and adds the stdout text after the old
      content. */
  lemma AppendWrites(fs: FS, rd: Redirect, out: string, now: nat)
    requires rd.kind == AppendTo && IsFile(fs, rd.target) && Target(fs, rd.target) != []
    ensures Redirected(fs, rd, out, now).Ok?
    ensures ReadFile(Redirected(fs, rd, out, now).value, rd.target) == Ok(ReadFile(fs, rd.target).value + out)
  {
    var prev := ReadFile(fs, rd.target).value;
    AppendOnto(fs, rd, out, now, prev);
    OverwriteFile(fs, rd.target, prev + out, now);
  }

  lemma AppendOnto(fs: FS, rd: Redirect, out: string, now: nat, prev: string)
    requires rd.kind == AppendTo && IsFile(fs, rd.target) && ReadFile(fs, rd.target) == Ok(prev)
    ensures Redirected(fs, rd, out, now) == WriteFile(fs, rd.target, prev + out, now)
  {
    assert Exists(fs, rd.target);
  }

  /** A `>>` redirect onto a missing path writes the stdout text as a new file. */
  lemma AppendCreates(fs: FS, rd: Redirect, out: string, now: nat)
    requires rd.kind == AppendTo && !Exists(fs, rd.target)
    ensures Redirected(fs, rd, out, now) == WriteFile(fs, rd.target, out, now)
  {
    assert "" + out == out;
  }

  /** A failed `<` read ends the stage before the command runs. A successful one replaces
      whatever the stage would have read. */
  lemma InputRedirect(ex: Executor, c: Command, cmd: ParsedCommand, redirects: seq<Redirect>, stdin: string, now: nat, rd: Redirect)
    requires FirstOf(redirects, true) == Some(rd)
    ensures ReadFile(ex.fs, rd.target).Err? ==>
      Invoke(ex, c, cmd, redirects, stdin, now) == (ex, CommandResult(1, "", "Failed to read input file: " + rd.target))
    ensures ReadFile(ex.fs, rd.target).Ok? ==>
      Invoke(ex, c, cmd, redirects, stdin, now) == Invoke(ex, c, cmd, redirects, ReadFile(ex.fs, rd.target).value, now)
  {
  }

  /** Without redirects a registered command's result is what it returned; a built-in's is its
      stdout text with nothing on stderr. */
  lemma PlainInvoke(ex: Executor, c: Command, cmd: ParsedCommand, stdin: string, now: nat)
    ensures var reply := c.run(OptionsFor(ex, cmd, cmd.flags, stdin, now));
      reply.Returned? ==>
        Invoke(ex, c, cmd, [], stdin, now) == (After(ex, reply), CommandResult(reply.exitCode, reply.stdout, reply.stderr))
    ensures var reply := c.run(OptionsFor(ex, cmd, cmd.flags, stdin, now));
      reply.Threw? ==> Invoke(ex, c, cmd, [], stdin, now) == (After(ex, reply), CommandResult(1, "", reply.message))
  {
    assert FirstOf([], true).None? && FirstOf([], false).None?;
  }

  /** With `>` the command's stdout text becomes the file's content; a successful write forces
      exit code 0 and an empty result whatever the command returned, and a failed one exits 1. */
  lemma OverwriteRedirect(ex: Executor, c: Command, cmd: ParsedCommand, redirects: seq<Redirect>, stdin: string, now: nat, rd: Redirect)
    requires FirstOf(redirects, true).None? && FirstOf(redirects, false) == Some(rd) && rd.kind == Overwrite
    requires c.run(OptionsFor(ex, cmd, cmd.flags, stdin, now)).Returned?
    ensures var reply := c.run(OptionsFor(ex, cmd, cmd.flags, stdin, now));
      var r := Invoke(ex, c, cmd, redirects, stdin, now);
      && (r.1.exitCode == 0 <==> WriteFile(reply.fs, rd.target, reply.stdout, now).Ok?)
      && (r.1.exitCode == 0 ==> r.1 == CommandResult(0, "", ""))
      && (r.1.exitCode != 0 ==> r.1 == CommandResult(1, "", "Failed to write to file: " + rd.target))
      && (r.1.exitCode == 0 && Target(reply.fs, rd.target) != [] ==> ReadFile(r.0.fs, rd.target) == Ok(reply.stdout))
  {
    var reply := c.run(OptionsFor(ex, cmd, cmd.flags, stdin, now));
    var ex' := After(ex, reply);
    assert Invoke(ex, c, cmd, redirects, stdin, now) == Deliver(ex', rd, reply.stdout, now);
    if Redirected(reply.fs, rd, reply.stdout, now).Ok? && Target(reply.fs, rd.target) != [] {
      OverwriteWrites(reply.fs, rd, reply.stdout, now);
    }
  }

  /** With `>>` on an existing file the stdout text is added after the old content, and the
      stage ends with exit code 0 and nothing to print. */
  lemma AppendRedirect(ex: Executor, c: Command, cmd: ParsedCommand, redirects: seq<Redirect>, stdin: string, now: nat, rd: Redirect)
    requires FirstOf(redirects, true).None? && FirstOf(redirects, false) == Some(rd) && rd.kind == AppendTo
    requires c.run(OptionsFor(ex, cmd, cmd.flags, stdin, now)).Returned?
    requires var reply := c.run(OptionsFor(ex, cmd, cmd.flags, stdin, now));
      IsFile(reply.fs, rd.target) && Target(reply.fs, rd.target) != []
    ensures var reply := c.run(OptionsFor(ex, cmd, cmd.flags, stdin, now));
      var r := Invoke(ex, c, cmd, redirects, stdin, now);
      && r.1 == CommandResult(0, "", "")
      && ReadFile(r.0.fs, rd.target) == Ok(ReadFile(reply.fs, rd.target).value + reply.stdout)
  {
    var reply := c.run(OptionsFor(ex, cmd, cmd.flags, stdin, now));
    var ex' := After(ex, reply);
    assert Invoke(ex, c, cmd, redirects, stdin, now) == Deliver(ex', rd, reply.stdout, now);
    AppendWrites(reply.fs, rd, reply.stdout, now);
  }

  /** `cat` with no arguments prints its stdin and succeeds. */
  lemma CatCopiesInput(ex: Executor, cmd: ParsedCommand, stdin: string, now: nat, scripts: Scripts)
    requires cmd.command == "cat" && cmd.args == []
    requires GetCommand(ex, "cat") == Some(BuiltinCommand(Builtins.Cat))
    ensures Single(ex, cmd, [], stdin, now, scripts).1 == CommandResult(0, stdin, "")
  {
    var inv := OptionsFor(ex, cmd, cmd.flags, stdin, now);
    PlainInvoke(ex, BuiltinCommand(Builtins.Cat), cmd, stdin, now);
    BuiltinReplies(Builtins.Cat, inv);
    assert Builtins.Run(Builtins.Cat, inv).stdout == stdin;
  }

  /** `x | y`: the line's result is `y`'s, run on what `x` printed, after `x`'s changes. */
  lemma PipeIntoSecond(ex: Executor, p: Pipeline, now: nat, scripts: Scripts)
    requires |p.commands| == 2 && p.operators == [Pipe]
    requires StageRedirects(p, 1) == []
    ensures var first := Single(ex, p.commands[0], StageRedirects(p, 0), "", now, scripts);
      RunPipeline(ex, p, now, scripts) == Single(first.0, p.commands[1], [], first.1.output, now, scripts)
  {
    var first := Single(ex, p.commands[0], StageRedirects(p, 0), "", now, scripts);
    assert StageInput(p, 0, CommandResult(0, "", "")) == "";
    assert StageInput(p, 1, first.1) == first.1.output;
    var second := Single(first.0, p.commands[1], [], first.1.output, now, scripts);
    var tail := Stages(first.0, p, 1, first.1, now, scripts);
    assert Stages(second.0, p, 2, second.1, now, scripts) == (second.0, second.1, 2);
    assert tail == (second.0, second.1, 2);
  }

  /** `x | cat` prints what `x` printed. */
  lemma PipeThroughCat(ex: Executor, p: Pipeline, now: nat, scripts: Scripts)
    requires |p.commands| == 2 && p.operators == [Pipe]
    requires p.commands[1].command == "cat" && p.commands[1].args == []
    requires GetCommand(ex, "cat") == Some(BuiltinCommand(Builtins.Cat))
    requires StageRedirects(p, 1) == []
    ensures var first := Single(ex, p.commands[0], StageRedirects(p, 0), "", now, scripts);
      RunPipeline(ex, p, now, scripts).1 == CommandResult(0, first.1.output, "")
  {
    var first := Single(ex, p.commands[0], StageRedirects(p, 0), "", now, scripts);
    PipeIntoSecond(ex, p, now, scripts);
    CatCopiesInput(first.0, p.commands[1], first.1.output, now, scripts);
  }

  /** `env K=V` run by the executor stores the value in the shared env, where `getEnv` and
      every later command see it. */
  lemma EnvIsShared(ex: Executor, cmd: ParsedCommand, now: nat, scripts: Scripts, k: string, v: string)
    requires GetCommand(ex, cmd.command) == Some(BuiltinCommand(Builtins.Env))
    requires '=' !in k && cmd.args == [k + "=" + v]
    ensures GetEnv(Single(ex, cmd, [], "", now, scripts).0, k) == Some(v)
  {
    var inv := OptionsFor(ex, cmd, cmd.flags, "", now);
    PlainInvoke(ex, BuiltinCommand(Builtins.Env), cmd, "", now);
    BuiltinReplies(Builtins.Env, inv);
    TextCommands.EnvSets(inv, k, v);
  }
}
