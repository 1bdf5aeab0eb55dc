/**
 * The built-in commands as values: each one's registered name and the function that runs it.
 * `grep` and `exec` belong to the same list in the program but are not part of this model.
 */
module Builtins {
  import opened Wrappers
  import opened Shell
  import FileCommands
  import FindCommand
  import TextCommands
  import WcCommand
  import AliasCommands
  import PromptCommands

  datatype Builtin =
    | Ls | Cd | Pwd | Cat | Echo | Mkdir | Touch | Rm | Cp | Mv | Clear | Help | History
    | Wc | Env | Find | Alias | Unalias | Ask | Confirm | Login | Survey

  /** The `name` each command registers under. */
  function Name(b: Builtin): string {
    match b
    case Ls => "ls"
    case Cd => "cd"
    case Pwd => "pwd"
    case Cat => "cat"
    case Echo => "echo"
    case Mkdir => "mkdir"
    case Touch => "touch"
    case Rm => "rm"
    case Cp => "cp"
    case Mv => "mv"
    case Clear => "clear"
    case Help => "help"
    case History => "history"
    case Wc => "wc"
    case Env => "env"
    case Find => "find"
    case Alias => "alias"
    case Unalias => "unalias"
    case Ask => "ask"
    case Confirm => "confirm"
    case Login => "login"
    case Survey => "survey"
  }

  /** `execute` of each command. Built-in commands exit 0, 1 or 130 (a cancelled prompt) and
      return output text only for `clear`; the commands that only read leave the filesystem as
      it was, only `env` changes the environment, and only the alias commands touch the alias
      table. */
  function Run(b: Builtin, inv: Invocation): (r: Outcome)
    ensures r.exitCode in {0, 1, 130}
    ensures b == Clear <==> r.output != ""
    ensures b != Alias && b != Unalias ==> r.aliases == inv.extras.aliases
    ensures b in {Ls, Pwd, Cat, Echo, Clear, Help, History, Wc, Find, Ask, Confirm, Login, Survey} ==> r.fs == inv.fs
    ensures b != Env ==> r.env == inv.env
  {
    match b
    case Ls => FileCommands.Ls(inv)
    case Cd => FileCommands.Cd(inv)
    case Pwd => FileCommands.Pwd(inv)
    case Cat => FileCommands.Cat(inv)
    case Echo => TextCommands.Echo(inv)
    case Mkdir => FileCommands.Mkdir(inv)
    case Touch => FileCommands.Touch(inv)
    case Rm => FileCommands.Rm(inv)
    case Cp => FileCommands.Cp(inv)
    case Mv => FileCommands.Mv(inv)
    case Clear => TextCommands.Clear(inv)
    case Help => TextCommands.Help(inv)
    case History => TextCommands.History(inv)
    case Wc => WcCommand.Wc(inv)
    case Env => TextCommands.EnvCommand(inv)
    case Find => FindCommand.Find(inv)
    case Alias => AliasCommands.Alias(inv)
    case Unalias => AliasCommands.Unalias(inv)
    case Ask => PromptCommands.Ask(inv)
    case Confirm => PromptCommands.Confirm(inv)
    case Login => PromptCommands.Login(inv)
    case Survey => PromptCommands.Survey(inv)
  }

  /** `builtInCommands`, in registration order (without `grep` and `exec`). */
  const Registered: seq<Builtin> :=
    [Ls, Cd, Pwd, Cat, Echo, Mkdir, Touch, Rm, Cp, Mv, Clear, Help, History, Wc, Env, Find, Alias, Unalias]

  /** The command registered under a name, if any. */
  function FromName(s: string): Option<Builtin> {
    if s == "ls" then Some(Ls)
    else if s == "cd" then Some(Cd)
    else if s == "pwd" then Some(Pwd)
    else if s == "cat" then Some(Cat)
    else if s == "echo" then Some(Echo)
    else if s == "mkdir" then Some(Mkdir)
    else if s == "touch" then Some(Touch)
    else if s == "rm" then Some(Rm)
    else if s == "cp" then Some(Cp)
    else if s == "mv" then Some(Mv)
    else if s == "clear" then Some(Clear)
    else if s == "help" then Some(Help)
    else if s == "history" then Some(History)
    else if s == "wc" then Some(Wc)
    else if s == "env" then Some(Env)
    else if s == "find" then Some(Find)
    else if s == "alias" then Some(Alias)
    else if s == "unalias" then Some(Unalias)
    else if s == "ask" then Some(Ask)
    else if s == "confirm" then Some(Confirm)
    else if s == "login" then Some(Login)
    else if s == "survey" then Some(Survey)
    else None
  }

  /** A name reads back as the command that registered it; so different commands register
      under different names, and registering the list loses none. */
  lemma FromNameOfName(b: Builtin)
    ensures FromName(Name(b)) == Some(b)
  {
    match b
    case Ls => assert Name(b) == "ls";
    case Cd => assert Name(b) == "cd";
    case Pwd => assert Name(b) == "pwd";
    case Cat => assert Name(b) == "cat";
    case Echo => assert Name(b) == "echo";
    case Mkdir => assert Name(b) == "mkdir";
    case Touch => assert Name(b) == "touch";
    case Rm => assert Name(b) == "rm";
    case Cp => assert Name(b) == "cp";
    case Mv => assert Name(b) == "mv";
    case Clear => assert Name(b) == "clear";
    case Help => assert Name(b) == "help";
    case History => assert Name(b) == "history";
    case Wc => assert Name(b) == "wc";
    case Env => assert Name(b) == "env";
    case Find => assert Name(b) == "find";
    case Alias => assert Name(b) == "alias";
    case Unalias => assert Name(b) == "unalias";
    case Ask => assert Name(b) == "ask";
    case Confirm => assert Name(b) == "confirm";
    case Login => assert Name(b) == "login";
    case Survey => assert Name(b) == "survey";
  }

  lemma NamesDistinct(a: Builtin, b: Builtin)
    ensures Name(a) == Name(b) <==> a == b
  {
    FromNameOfName(a);
    FromNameOfName(b);
  }

  /** No two commands register under the same name. */
  lemma NamesInjective()
    ensures forall a, b :: Name(a) == Name(b) ==> a == b
  {
    forall a, b | Name(a) == Name(b)
      ensures a == b
    {
      NamesDistinct(a, b);
    }
  }

  /** Without an alias manager, `alias` and `unalias` refuse to run. */
  lemma AliasesNeedManager(b: Builtin, inv: Invocation)
    requires inv.extras.aliases.None?
    ensures b in {Alias, Unalias} ==> Run(b, inv).exitCode == 1 && Run(b, inv).stdout == AliasCommands.NoManager
  {
    match b
    case Alias => assert Run(b, inv) == AliasCommands.Alias(inv);
    case Unalias => assert Run(b, inv) == AliasCommands.Unalias(inv);
    case _ =>
  }

  /** Without a prompt manager, the prompt commands refuse to run. */
  lemma PromptsNeedManager(b: Builtin, inv: Invocation)
    requires inv.extras.prompt.None?
    ensures b in {Ask, Confirm, Login, Survey} ==> Run(b, inv).exitCode == 1 && Run(b, inv).stdout == PromptCommands.NoPrompt
  {
    match b
    case Ask => assert Run(b, inv) == PromptCommands.Ask(inv);
    case Confirm => assert Run(b, inv) == PromptCommands.Confirm(inv);
    case Login => assert Run(b, inv) == PromptCommands.Login(inv);
    case Survey => assert Run(b, inv) == PromptCommands.Survey(inv);
    case _ =>
  }
}
