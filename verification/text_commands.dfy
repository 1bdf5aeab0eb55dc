/**
 * The built-in commands that only read their arguments and the shared state:
 * echo, clear, history, help and env. env also writes the shared environment.
 */
module TextCommands {
  import opened Wrappers
  import opened Strings
  import opened OrderedMap
  import opened Shell

  // ---------------------------------------------------------------------------
  // echo

  /** `echoCommand.execute`: the arguments joined by single spaces, then a newline. */
  function Echo(inv: Invocation): (r: Outcome)
    ensures r.exitCode == 0 && r.fs == inv.fs && r.env == inv.env && r.aliases == inv.extras.aliases
    ensures r.output == "" && EndsWith(r.stdout, "\n")
    ensures |inv.args| == 0 ==> r.stdout == "\n"
  {
    Finish(inv, 0, Join(inv.args, " ") + "\n")
  }

  /** The printed line splits back into the arguments when none of them holds a space; flags,
      stdin and the filesystem play no part. */
  lemma EchoRoundTrip(inv: Invocation)
    requires |inv.args| > 0
    requires forall i :: 0 <= i < |inv.args| ==> ' ' !in inv.args[i]
    ensures var out := Echo(inv).stdout; Split(out[..|out| - 1], ' ') == inv.args
  {
    var out := Echo(inv).stdout;
    assert out[..|out| - 1] == Join(inv.args, " ");
    SplitJoin(inv.args, ' ');
  }

  // ---------------------------------------------------------------------------
  // clear

  /** The escape sequence that clears the screen and homes the cursor. */
  const ClearScreen := "\U{1B}[2J\U{1B}[H"

  /** `clearCommand.execute`: the returned output is the clear-screen sequence; nothing is
      written to stdout and no state changes. */
  function Clear(inv: Invocation): (r: Outcome)
    ensures r.exitCode == 0 && r.output == ClearScreen && r.stdout == ""
    ensures r.fs == inv.fs && r.env == inv.env && r.aliases == inv.extras.aliases
  {
    Outcome(0, ClearScreen, "", inv.fs, inv.env, inv.extras.aliases)
  }

  // ---------------------------------------------------------------------------
  // history

  /** Entry i of the listing: two spaces, the 1-based number padded to width 4, two spaces,
      the command. */
  function HistoryLine(i: nat, command: string): string {
    "  " + PadStart(NatToString(i + 1), 4) + "  " + command
  }

  function HistoryLines(h: seq<string>): (r: seq<string>)
    ensures |r| == |h| && forall i :: 0 <= i < |h| ==> r[i] == HistoryLine(i, h[i])
  {
    seq(|h|, i requires 0 <= i < |h| => HistoryLine(i, h[i]))
  }

  /** `historyCommand.execute` over the injected history, which defaults to none. */
  function History(inv: Invocation): (r: Outcome)
    ensures r.exitCode == 0 && r.fs == inv.fs && r.env == inv.env && r.aliases == inv.extras.aliases
    ensures r.output == ""
  {
    var h := if inv.extras.history.Some? then inv.extras.history.value else [];
    if |h| == 0 then Finish(inv, 0, "No history available\n")
    else Finish(inv, 0, Lines(HistoryLines(h)))
  }

  lemma {:induction false} NatToStringWidth(n: nat, k: nat)
    requires n < Power10(k)
    ensures |NatToString(n)| <= if k == 0 then 1 else k
    decreases n
  {
    if n >= 10 {
      assert k >= 2;
      NatToStringWidth(n / 10, k - 1);
    }
  }

  function Power10(k: nat): nat {
    if k == 0 then 1 else 10 * Power10(k - 1)
  }

  /** Below ten thousand entries every number fits its column, so the command starts at the
      ninth character of its line. */
  lemma HistoryLineCommand(i: nat, command: string)
    requires i + 1 < 10000
    ensures |HistoryLine(i, command)| == 8 + |command|
    ensures HistoryLine(i, command)[8..] == command
  {
    assert Power10(4) == 10000;
    NatToStringWidth(i + 1, 4);
  }

  /** The listing splits at newlines into one line per entry, numbered from 1, each ending in
      its command; an empty history gets the notice instead. */
  lemma HistoryListsEntries(inv: Invocation)
    requires inv.extras.history.Some? && |inv.extras.history.value| < 10000
    requires forall i :: 0 <= i < |inv.extras.history.value| ==> '\n' !in inv.extras.history.value[i]
    ensures var h := inv.extras.history.value;
      var parts := Split(History(inv).stdout, '\n');
      (|h| == 0 ==> History(inv).stdout == "No history available\n")
      && (|h| > 0 ==> |parts| == |h| + 1 && forall i :: 0 <= i < |h| ==> |parts[i]| >= 8 && parts[i][8..] == h[i])
  {
    var h := inv.extras.history.value;
    if |h| > 0 {
      var lines := HistoryLines(h);
      forall i | 0 <= i < |h|
        ensures '\n' !in lines[i] && lines[i][8..] == h[i]
      {
        HistoryLineCommand(i, h[i]);
        NoNewlineInNumber(i);
      }
      LinesSplit(lines);
    }
  }

  lemma NoNewlineInNumber(i: nat)
    ensures '\n' !in PadStart(NatToString(i + 1), 4)
  {
    var s := NatToString(i + 1);
    var p := PadStart(s, 4);
    forall k | 0 <= k < |p|
      ensures p[k] != '\n'
    {
      if k >= |p| - |s| {
        assert p[k] == s[k - (|p| - |s|)];
      }
    }
  }

  // ---------------------------------------------------------------------------
  // help

  /** `commands.find(c => c.name === name)`: the first command with that name. */
  function FindInfo(commands: seq<CommandInfo>, name: string): (r: Option<CommandInfo>)
    ensures r.None? <==> forall i :: 0 <= i < |commands| ==> commands[i].name != name
    ensures r.Some? ==> r.value.name == name
    ensures r.Some? ==> exists i :: (0 <= i < |commands| && commands[i] == r.value
                                     && forall j :: 0 <= j < i ==> commands[j].name != name)
  {
    if |commands| == 0 then None
    else if commands[0].name == name then Some(commands[0])
    else
      var r := FindInfo(commands[1..], name);
      if r.Some? then
        ghost var i :| 0 <= i < |commands[1..]| && commands[1..][i] == r.value
          && forall j :: 0 <= j < i ==> commands[1..][j].name != name;
        assert commands[i + 1] == r.value;
        r
      else r
  }

  /** One row of the command list: the name padded to 12, a dash, the description. */
  function HelpRow(c: CommandInfo): string {
    "  " + PadEnd(c.name, 12) + " - " + c.description
  }

  const HelpFooter := "Use \"help <command>\"" + " for more information" + " about a specific command."

  /** The listing's lines: a header and a blank line, one row per command, a blank line and
      the footer. */
  function HelpListing(commands: seq<CommandInfo>): (r: seq<string>)
    ensures |r| == |commands| + 4
    ensures r[0] == "Available commands:" && r[1] == "" && r[|r| - 2] == "" && r[|r| - 1] == HelpFooter
    ensures forall i :: 0 <= i < |commands| ==> r[i + 2] == HelpRow(commands[i])
  {
    ["Available commands:", ""] + seq(|commands|, i requires 0 <= i < |commands| => HelpRow(commands[i]))
    + ["", HelpFooter]
  }

  /** `helpCommand.execute` over the injected command list, which defaults to none. */
  function Help(inv: Invocation): (r: Outcome)
    ensures r.fs == inv.fs && r.env == inv.env && r.aliases == inv.extras.aliases && r.output == ""
    ensures var cmds := if inv.extras.commands.Some? then inv.extras.commands.value else [];
      r.exitCode == 0 <==> |inv.args| == 0 || exists i :: 0 <= i < |cmds| && cmds[i].name == inv.args[0]
    ensures r.exitCode == 0 || r.exitCode == 1
    ensures r.exitCode == 1 ==> r.stdout == "help: no help topics match '" + inv.args[0] + "'\n"
  {
    var cmds := if inv.extras.commands.Some? then inv.extras.commands.value else [];
    if |inv.args| == 0 then Finish(inv, 0, Lines(HelpListing(cmds)))
    else
      match FindInfo(cmds, inv.args[0])
      case None => Finish(inv, 1, "help: no help topics match '" + inv.args[0] + "'\n")
      case Some(c) => Finish(inv, 0, c.name + ": " + c.description + "\n\nUsage: " + c.usage + "\n")
  }

  /** Help on a topic describes the first registered command of that name. */
  lemma HelpTopic(inv: Invocation, i: nat)
    requires inv.extras.commands.Some? && i < |inv.extras.commands.value| && |inv.args| > 0
    requires inv.extras.commands.value[i].name == inv.args[0]
    requires forall j :: 0 <= j < i ==> inv.extras.commands.value[j].name != inv.args[0]
    ensures var c := inv.extras.commands.value[i];
      Help(inv).stdout == c.name + ": " + c.description + "\n\nUsage: " + c.usage + "\n"
  {
    var cmds := inv.extras.commands.value;
    var r := FindInfo(cmds, inv.args[0]);
    var k :| 0 <= k < |cmds| && cmds[k] == r.value && r.value.name == inv.args[0]
      && forall j :: 0 <= j < k ==> cmds[j].name != inv.args[0];
    assert !(k < i) && !(i < k);
  }

  /** Without a topic, the output splits into the listing's lines when no name or
      description holds a newline. */
  lemma HelpListsCommands(inv: Invocation)
    requires |inv.args| == 0
    requires var cmds := if inv.extras.commands.Some? then inv.extras.commands.value else [];
      forall i :: 0 <= i < |cmds| ==> '\n' !in cmds[i].name && '\n' !in cmds[i].description
    ensures var cmds := if inv.extras.commands.Some? then inv.extras.commands.value else [];
      Help(inv).exitCode == 0 && Split(Help(inv).stdout, '\n') == HelpListing(cmds) + [""]
  {
    var cmds := if inv.extras.commands.Some? then inv.extras.commands.value else [];
    var lines := HelpListing(cmds);
    forall k | 0 <= k < |lines|
      ensures '\n' !in lines[k]
    {
      if 2 <= k < |cmds| + 2 {
        HelpRowOneLine(cmds[k - 2]);
      } else if k == |cmds| + 3 {
        FooterOneLine();
      } else if k == 0 {
        assert lines[k] == "Available commands:";
      }
    }
    LinesSplit(lines);
  }

  lemma FooterOneLine()
    ensures '\n' !in HelpFooter
  {
    var a, b, c := "Use \"help <command>\"", " for more information", " about a specific command.";
    assert '\n' !in a && '\n' !in b && '\n' !in c;
    assert '\n' !in a + b;
  }

  lemma HelpRowOneLine(c: CommandInfo)
    requires '\n' !in c.name && '\n' !in c.description
    ensures '\n' !in HelpRow(c)
  {
    var p := PadEnd(c.name, 12);
    forall k | 0 <= k < |p|
      ensures p[k] != '\n'
    {
      if k < |c.name| {
        assert p[k] == c.name[k];
      }
    }
  }

  // ---------------------------------------------------------------------------
  // env

  /** The value of a key, or "" when it is unset. */
  function ValueOf(env: Env, key: string): string {
    match Get(env, key)
    case Some(v) => v
    case None => ""
  }

  /** `Object.entries(env)` sorted by key, printed as KEY=VALUE. */
  function EnvListing(env: Env): (r: seq<string>)
    ensures |r| == |env|
  {
    var keys := Sort(Keys(env));
    assert |keys| == |Keys(env)| by {
      assert |multiset(keys)| == |multiset(Keys(env))|;
    }
    seq(|keys|, i requires 0 <= i < |keys| => keys[i] + "=" + ValueOf(env, keys[i]))
  }

  /** An argument with '=' assigns the text after the first '=' to the text before it. */
  function Assignment(arg: string): (r: Option<(string, string)>)
    ensures r.None? <==> '=' !in arg
    ensures r.Some? ==> '=' !in r.value.0 && r.value.0 + "=" + r.value.1 == arg
  {
    var i := IndexOf(arg, '=');
    if i < 0 then None
    else
      assert arg == arg[..i] + "=" + arg[i + 1..];
      Some((arg[..i], arg[i + 1..]))
  }

  /** One argument: an assignment writes the shared map and reports it; a name prints its
      variable or reports it missing. */
  function EnvArg(env: Env, arg: string): (Env, string) {
    match Assignment(arg)
    case Some((k, v)) => (Put(env, k, v), "Set " + k + "=" + v + "\n")
    case None =>
      match Get(env, arg)
      case Some(v) => (env, arg + "=" + v + "\n")
      case None => (env, "env: " + arg + ": not found\n")
  }

  /** The loop over the arguments, in order. */
  function EnvEach(env: Env, args: seq<string>): (Env, string)
    decreases |args|
  {
    if |args| == 0 then (env, "")
    else
      var (env1, out1) := EnvArg(env, args[0]);
      var (env2, out2) := EnvEach(env1, args[1..]);
      (env2, out1 + out2)
  }

  /** `envCommand.execute`: exit 0 on every path; only assignments change the environment. */
  function EnvCommand(inv: Invocation): (r: Outcome)
    ensures r.exitCode == 0 && r.output == "" && r.fs == inv.fs && r.aliases == inv.extras.aliases
    ensures |inv.args| == 0 ==> r.env == inv.env
    ensures (forall i :: 0 <= i < |inv.args| ==> '=' !in inv.args[i]) ==> r.env == inv.env
  {
    if |inv.args| == 0 then Finish(inv, 0, Lines(EnvListing(inv.env)))
    else
      var (env', out) := EnvEach(inv.env, inv.args);
      EnvEachReadsOnly(inv.env, inv.args);
      Outcome(0, "", out, inv.fs, env', inv.extras.aliases)
  }

  lemma {:induction false} EnvEachReadsOnly(env: Env, args: seq<string>)
    ensures (forall i :: 0 <= i < |args| ==> '=' !in args[i]) ==> EnvEach(env, args).0 == env
    decreases |args|
  {
    if |args| > 0 {
      EnvEachReadsOnly(env, args[1..]);
    }
  }

  /** Assignments keep the keys distinct. */
  lemma {:induction false} EnvEachUnique(env: Env, args: seq<string>)
    requires UniqueKeys(env)
    ensures UniqueKeys(EnvEach(env, args).0)
    decreases |args|
  {
    if |args| > 0 {
      var env1 := EnvArg(env, args[0]).0;
      if Assignment(args[0]).Some? {
        PutUnique(env, Assignment(args[0]).value.0, Assignment(args[0]).value.1);
      }
      EnvEachUnique(env1, args[1..]);
    }
  }

  /** An assignment splits at its first '='. */
  lemma AssignmentOf(k: string, v: string)
    requires '=' !in k
    ensures Assignment(k + "=" + v) == Some((k, v))
  {
    var a := k + "=" + v;
    assert a[|k|] == '=' && a[..|k|] == k && a[|k| + 1..] == v;
    assert '=' !in a[..|k|];
  }

  /** `env K=V` sets K to V, reports it, and leaves every other variable as it was. */
  lemma EnvSets(inv: Invocation, k: string, v: string)
    requires '=' !in k && inv.args == [k + "=" + v]
    ensures var r := EnvCommand(inv);
      && Get(r.env, k) == Some(v)
      && (forall k' :: k' != k ==> Get(r.env, k') == Get(inv.env, k'))
      && r.stdout == "Set " + k + "=" + v + "\n"
  {
    AssignmentOf(k, v);
    assert EnvArg(inv.env, k + "=" + v) == (Put(inv.env, k, v), "Set " + k + "=" + v + "\n");
    assert EnvEach(inv.env, inv.args) == (Put(inv.env, k, v), "Set " + k + "=" + v + "\n" + "");
    forall k' ensures Get(Put(inv.env, k, v), k') == if k' == k then Some(v) else Get(inv.env, k') {
      GetPut(inv.env, k, v, k');
    }
  }

  /** A name with a value prints NAME=VALUE. */
  lemma EnvShows(inv: Invocation, k: string, v: string)
    requires '=' !in k && inv.args == [k] && Get(inv.env, k) == Some(v)
    ensures EnvCommand(inv).stdout == k + "=" + v + "\n"
  {
    assert Assignment(k).None?;
    assert EnvEach(inv.env, [k]) == (inv.env, k + "=" + v + "\n" + "");
  }

  /** A value set by one env run is what a later run prints for that name. */
  lemma EnvSetThenGet(inv: Invocation, k: string, v: string)
    requires '=' !in k && inv.args == [k + "=" + v]
    ensures EnvCommand(inv.(args := [k], env := EnvCommand(inv).env)).stdout == k + "=" + v + "\n"
  {
    EnvSets(inv, k, v);
    EnvShows(inv.(args := [k], env := EnvCommand(inv).env), k, v);
  }

  lemma {:induction false} GetAt(env: Env, i: nat)
    requires UniqueKeys(env) && i < |env|
    ensures Get(env, env[i].0) == Some(env[i].1)
    decreases i
  {
    if i > 0 {
      assert UniqueKeys(env[1..]);
      GetAt(env[1..], i - 1);
    }
  }

  /** Without arguments every variable is printed once as KEY=VALUE, in key order. */
  lemma EnvListsAll(env: Env, i: nat)
    requires UniqueKeys(env) && i < |env|
    ensures env[i].0 + "=" + env[i].1 in EnvListing(env)
    ensures Sorted(Sort(Keys(env)))
  {
    var keys := Sort(Keys(env));
    assert env[i].0 in multiset(Keys(env));
    assert env[i].0 in keys;
    var j :| 0 <= j < |keys| && keys[j] == env[i].0;
    GetAt(env, i);
    assert EnvListing(env)[j] == env[i].0 + "=" + env[i].1;
  }
}
