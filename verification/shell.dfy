/**
 * What a command sees and what it leaves behind. A command runs against the
 * shared filesystem and environment; its `stdout` stream is collected as text
 * and its `stdin` stream arrives as the text it would read out. Optional
 * collaborators (alias table, history list, command list, prompt function)
 * are present only when a caller supplies them.
 */
module Shell {
  import opened Wrappers
  import opened Strings
  import opened OrderedMap
  import opened Filesystem
  import opened Parser
  import AliasManager
  import opened PathResolver

  /** The executor's `env` record, in insertion order. */
  type Env = Entries<string, string>

  /** `{ name, description, usage }` of a registered command. */
  datatype CommandInfo = CommandInfo(name: string, description: string, usage: string)

  /** What the person at the prompt does with the k-th question: answer it, press the cancel
      key, or the prompt is refused before it is shown (its rejection message). */
  datatype UserAction = Typed(value: string) | Cancelled | Failed(message: string)

  /** The prompt function, observed from outside: the action taken on the k-th question asked
      in one command run, given that question's message. */
  type Responder = (nat, string) -> UserAction

  /** `(options as any).aliasManager`, `.history`, `.commands` and `options.prompt`. */
  datatype Extras = Extras(aliases: Option<AliasManager.Aliases>, history: Option<seq<string>>,
                           commands: Option<seq<CommandInfo>>, prompt: Option<Responder>)

  /** What `CommandExecutor` passes: none of the optional collaborators. */
  const NoExtras := Extras(None, None, None, None)

  /** `CommandOptions` plus the arguments; `now` is the clock reading for timestamps. */
  datatype Invocation = Invocation(args: seq<string>, flags: map<string, FlagValue>, stdin: string,
                                   cwd: string, env: Env, fs: FS, now: nat, extras: Extras)

  /** A built-in command's run: the returned `{ exitCode, output }`, what it wrote to stdout,
      and the shared state afterwards. Built-in commands never write to stderr. */
  datatype Outcome = Outcome(exitCode: int, output: string, stdout: string, fs: FS, env: Env,
                             aliases: Option<AliasManager.Aliases>)

  /** A run that changes no state. */
  function Finish(inv: Invocation, exitCode: int, stdout: string): (r: Outcome)
    ensures r.fs == inv.fs && r.env == inv.env && r.aliases == inv.extras.aliases
    ensures r.exitCode == exitCode && r.stdout == stdout && r.output == ""
  {
    Outcome(exitCode, "", stdout, inv.fs, inv.env, inv.extras.aliases)
  }

  /** The directory relative arguments are read against: `cwd || fs.cwd`. */
  function BaseDir(inv: Invocation): string {
    if inv.cwd != "" then inv.cwd else inv.fs.cwd
  }

  /** `fs.resolvePath(p, cwd)`. */
  function Abs(inv: Invocation, p: string): (r: string)
    ensures r == ResolvePathFrom(inv.fs, p, inv.cwd)
  {
    Resolve(p, BaseDir(inv))
  }

  /** A resolved path is already normalised. */
  lemma ResolveIsNormal(p: string, base: string)
    ensures Normalize(Resolve(p, base)) == Resolve(p, base)
  {
    if StartsWith(p, "/") {
      NormalizeIdempotent(p);
    } else {
      NormalizeIdempotent(if base == "/" then "/" + p else base + "/" + p);
    }
  }

  /** A resolved path names the same place from any filesystem state, and only the root has no
      segments (and always exists). */
  lemma Resolved(fs: FS, p: string, base: string)
    ensures ResolvePath(fs, Resolve(p, base)) == Resolve(p, base)
    ensures Target(fs, Resolve(p, base)) == [] <==> Resolve(p, base) == "/"
    ensures Target(fs, Resolve(p, base)) == [] ==> Exists(fs, Resolve(p, base))
  {
    var a := Resolve(p, base);
    ResolveIsNormal(p, base);
    ResolveOfNormal(fs, a);
    NormalizeSegments(a);
    LocateWalk(fs, a);
  }

  /** Two resolved paths name the same place exactly when they are the same string. */
  lemma DistinctResolved(fs: FS, a: string, b: string, base: string)
    ensures Target(fs, Resolve(a, base)) == Target(fs, Resolve(b, base)) <==> Resolve(a, base) == Resolve(b, base)
  {
    Resolved(fs, a, base);
    Resolved(fs, b, base);
    ResolveIsNormal(a, base);
    ResolveIsNormal(b, base);
  }

  /** A flag read as JavaScript truthiness: absent and the empty string are false. */
  predicate Truthy(flags: map<string, FlagValue>, name: string) {
    name in flags && (flags[name].FlagTrue? || flags[name].text != "")
  }

  /** `env[key] || fallback`. */
  function EnvOr(env: Env, key: string, fallback: string): string {
    match Get(env, key)
    case Some(v) => if v != "" then v else fallback
    case None => fallback
  }

  /** Each string written with a trailing newline, in order. */
  function Lines(ss: seq<string>): (r: string)
    ensures |ss| == 0 <==> r == ""
  {
    if |ss| == 0 then "" else ss[0] + "\n" + Lines(ss[1..])
  }

  /** Splitting the written text at newlines gives back the lines, then the empty remainder. */
  lemma {:induction false} LinesSplit(ss: seq<string>)
    requires forall i :: 0 <= i < |ss| ==> '\n' !in ss[i]
    ensures Split(Lines(ss), '\n') == ss + [""]
    decreases |ss|
  {
    if |ss| == 0 {
    } else {
      LinesSplit(ss[1..]);
      SplitConcatSep(ss[0], Lines(ss[1..]), '\n');
      SplitNoSep(ss[0], '\n');
      assert ss[0] + "\n" + Lines(ss[1..]) == ss[0] + ['\n'] + Lines(ss[1..]);
      HeadTail(ss);
    }
  }
}
