/**
 * The `alias` and `unalias` built-ins. Both act on the alias table a caller hands over in
 * the command options; without one they refuse to run.
 */
module AliasCommands {
  import opened Wrappers
  import opened Strings
  import opened OrderedMap
  import opened Shell
  import AliasManager
  import TextCommands

  type Aliases = AliasManager.Aliases

  const NoManager := "Alias manager not available\n"
  const UnaliasUsage := "unalias: usage: unalias [-a] name [name ...]\n"

  // ---------------------------------------------------------------------------
  // alias

  predicate IsQuote(c: char) {
    c == '\'' || c == '"'
  }

  /** `value.replace(/^['"]|['"]$/g, '')`: one quote character is dropped from the front and
      one from the back, each on its own; they need not match. */
  function StripQuotes(v: string): (r: string)
    ensures |v| - 2 <= |r| <= |v|
    ensures r == v[..|r|] || (|r| < |v| && r == v[1..|r| + 1])
  {
    var front := if |v| > 0 && IsQuote(v[0]) then v[1..] else v;
    if |front| > 0 && IsQuote(front[|front| - 1]) then front[..|front| - 1] else front
  }

  /** Quoting a value with any quote characters and stripping gives the value back. */
  lemma StripQuotesOfQuoted(x: string, open: char, close: char)
    requires IsQuote(open) && IsQuote(close)
    ensures StripQuotes([open] + x + [close]) == x
  {
    var v := [open] + x + [close];
    assert v[1..] == x + [close];
    assert (x + [close])[..|x|] == x;
  }

  /** A value that neither starts nor ends with a quote is kept as it is. */
  lemma StripQuotesOfPlain(x: string)
    requires |x| > 0 ==> !IsQuote(x[0]) && !IsQuote(x[|x| - 1])
    ensures StripQuotes(x) == x
  {
  }

  /** `alias name='value'`: how one alias is shown. */
  function AliasLine(name: string, value: string): string {
    "alias " + name + "='" + value + "'"
  }

  /** `getAll()` sorted by name, one line per alias. */
  function AliasListing(table: Entries<string, string>): (r: seq<string>)
    ensures |r| == |table|
  {
    var names := Sort(Keys(table));
    assert |names| == |Keys(table)| by {
      assert |multiset(names)| == |multiset(Keys(table))|;
    }
    seq(|names|, i requires 0 <= i < |names| => AliasLine(names[i], TextCommands.ValueOf(table, names[i])))
  }

  /** Every alias of the table is listed once with its own value, and the listing is in name order. */
  lemma AliasListsAll(table: Entries<string, string>, i: nat)
    requires UniqueKeys(table) && i < |table|
    ensures AliasLine(table[i].0, table[i].1) in AliasListing(table)
    ensures Sorted(Sort(Keys(table)))
  {
    var names := Sort(Keys(table));
    assert table[i].0 in multiset(Keys(table));
    assert table[i].0 in names;
    var j :| 0 <= j < |names| && names[j] == table[i].0;
    TextCommands.GetAt(table, i);
    assert AliasListing(table)[j] == AliasLine(table[i].0, table[i].1);
  }

  /** One argument: `name=value` sets the alias (the value with its quotes stripped), an empty
      name is refused, and a bare name is shown or reported missing. The flag says whether
      processing goes on. */
  function AliasArg(a: Aliases, arg: string): (r: (Aliases, string, bool))
    ensures !r.2 ==> r.0 == a
  {
    match TextCommands.Assignment(arg)
    case Some((name, value)) =>
      if name == "" then (a, "alias: invalid alias name\n", false)
      else (AliasManager.Set(a, name, StripQuotes(value)), "", true)
    case None =>
      match AliasManager.GetAlias(a, arg)
      case Some(v) => (a, AliasLine(arg, v) + "\n", true)
      case None => (a, "alias: " + arg + ": not found\n", false)
  }

  /** The loop over the arguments; the first refused argument ends it. */
  function AliasEach(a: Aliases, args: seq<string>): (Aliases, string, bool)
    decreases |args|
  {
    if |args| == 0 then (a, "", true)
    else
      var (a1, out1, go) := AliasArg(a, args[0]);
      if !go then (a1, out1, false)
      else
        var (a2, out2, ok) := AliasEach(a1, args[1..]);
        (a2, out1 + out2, ok)
  }

  /** `aliasCommand.execute`. */
  function Alias(inv: Invocation): (r: Outcome)
    ensures r.fs == inv.fs && r.env == inv.env && r.output == ""
    ensures r.exitCode == 0 || r.exitCode == 1
    ensures inv.extras.aliases.None? ==> r.exitCode == 1 && r.stdout == NoManager && r.aliases.None?
    ensures inv.extras.aliases.Some? ==> r.aliases.Some?
    ensures inv.extras.aliases.Some? && |inv.args| == 0 ==> r.exitCode == 0 && r.aliases == inv.extras.aliases
    ensures (forall i :: 0 <= i < |inv.args| ==> '=' !in inv.args[i]) ==> r.aliases == inv.extras.aliases
  {
    match inv.extras.aliases
    case None => Finish(inv, 1, NoManager)
    case Some(a) =>
      if |inv.args| == 0 then
        Finish(inv, 0, if |a.table| == 0 then "No aliases defined\n" else Lines(AliasListing(a.table)))
      else
        var (a', out, ok) := AliasEach(a, inv.args);
        AliasEachShowOnly(a, inv.args);
        Outcome(if ok then 0 else 1, "", out, inv.fs, inv.env, Some(a'))
  }

  /** Arguments without '=' only read the table. */
  lemma {:induction false} AliasEachShowOnly(a: Aliases, args: seq<string>)
    ensures (forall i :: 0 <= i < |args| ==> '=' !in args[i]) ==> AliasEach(a, args).0 == a
    decreases |args|
  {
    if |args| > 0 && forall i :: 0 <= i < |args| ==> '=' !in args[i] {
      assert forall i :: 0 <= i < |args[1..]| ==> '=' !in args[1..][i] by {
        forall i | 0 <= i < |args[1..]| ensures '=' !in args[1..][i] {
          assert args[1..][i] == args[i + 1];
        }
      }
      AliasEachShowOnly(a, args[1..]);
    }
  }

  /** A single argument runs exactly as that one step. */
  lemma AliasEachOne(a: Aliases, arg: string)
    ensures AliasEach(a, [arg]) == AliasArg(a, arg)
  {
    assert [arg][0] == arg && [arg][1..] == [];
    var r := AliasArg(a, arg);
    assert r.1 + "" == r.1;
  }

  /** The name an argument would set, if it is an assignment. */
  function SetName(arg: string): Option<string> {
    match TextCommands.Assignment(arg)
    case Some((name, _)) => Some(name)
    case None => None
  }

  /** An argument is accepted when it assigns to a non-empty name, or when it names an alias
      that existed beforehand or that an earlier argument of the same run set. */
  predicate Accepted(a: Aliases, args: seq<string>, i: nat)
    requires i < |args|
  {
    match SetName(args[i])
    case Some(name) => name != ""
    case None => args[i] in Keys(a.table) || exists j :: 0 <= j < i && SetName(args[j]) == Some(args[i])
  }

  /** After an accepted assignment exactly one more name is defined. */
  lemma SetKeys(a: Aliases, name: string, value: string, x: string)
    ensures x in Keys(AliasManager.Set(a, name, value).table) <==> x in Keys(a.table) || x == name
  {
    GetPut(a.table, name, value, x);
  }

  /** `alias` succeeds exactly when every argument is accepted in the sense above. */
  lemma {:induction false} AliasEachSucceeds(a: Aliases, args: seq<string>)
    ensures AliasEach(a, args).2 <==> forall i :: 0 <= i < |args| ==> Accepted(a, args, i)
    decreases |args|
  {
    if |args| > 0 {
      var rest := args[1..];
      assert |rest| < |args|;
      AcceptedFirst(a, args);
      var (a1, out1, go) := AliasArg(a, args[0]);
      if go {
        AliasEachSucceeds(a1, rest);
        AllAcceptedShift(a, args);
      }
    }
  }

  /** The first argument is accepted exactly when `alias` goes on past it. */
  lemma AcceptedFirst(a: Aliases, args: seq<string>)
    requires |args| > 0
    ensures AliasArg(a, args[0]).2 <==> Accepted(a, args, 0)
  {
  }

  /** Once the first argument is accepted, the rest are accepted in the updated table exactly
      when they are accepted in the whole run. */
  lemma AllAcceptedShift(a: Aliases, args: seq<string>)
    requires |args| > 0 && AliasArg(a, args[0]).2
    ensures (forall i :: 0 <= i < |args| ==> Accepted(a, args, i))
      <==> (forall i :: 0 <= i < |args| - 1 ==> Accepted(AliasArg(a, args[0]).0, args[1..], i))
  {
    var a1 := AliasArg(a, args[0]).0;
    AcceptedFirst(a, args);
    forall i | 0 <= i < |args| - 1
      ensures Accepted(a1, args[1..], i) <==> Accepted(a, args, i + 1)
    {
      AcceptedShift(a, args, i);
    }
    if forall i :: 0 <= i < |args| - 1 ==> Accepted(a1, args[1..], i) {
      forall i | 1 <= i < |args| ensures Accepted(a, args, i) {
        assert Accepted(a1, args[1..], i - 1);
      }
    }
  }

  /** Accepting the later arguments after the first one has been applied. */
  lemma AcceptedShift(a: Aliases, args: seq<string>, i: nat)
    requires i + 1 < |args| && AliasArg(a, args[0]).2
    ensures Accepted(AliasArg(a, args[0]).0, args[1..], i) <==> Accepted(a, args, i + 1)
  {
    var a1 := AliasArg(a, args[0]).0;
    var x := args[i + 1];
    assert args[1..][i] == x;
    if SetName(x).None? {
      var earlier := exists j :: 0 <= j < i && SetName(args[1..][j]) == Some(x);
      var earlierAll := exists j :: 0 <= j < i + 1 && SetName(args[j]) == Some(x);
      assert earlierAll <==> SetName(args[0]) == Some(x) || earlier by {
        if earlier {
          var j :| 0 <= j < i && SetName(args[1..][j]) == Some(x);
          assert SetName(args[j + 1]) == Some(x);
        }
        if earlierAll && SetName(args[0]) != Some(x) {
          var j :| 0 <= j < i + 1 && SetName(args[j]) == Some(x);
          assert j > 0;
          assert SetName(args[1..][j - 1]) == Some(x);
        }
      }
      match TextCommands.Assignment(args[0])
      case Some((name, value)) =>
        SetKeys(a, name, StripQuotes(value), x);
      case None =>
    }
  }

  /** `alias name=value name` defines the alias and shows it with its quotes stripped. */
  lemma AliasSetThenShow(inv: Invocation, name: string, value: string)
    requires inv.extras.aliases.Some? && name != "" && '=' !in name
    requires inv.args == [name + "=" + value, name]
    ensures var r := Alias(inv);
      && r.exitCode == 0
      && r.stdout == AliasLine(name, StripQuotes(value)) + "\n"
      && r.aliases.Some?
      && AliasManager.GetAlias(r.aliases.value, name) == Some(StripQuotes(value))
  {
    var a := inv.extras.aliases.value;
    var v := StripQuotes(value);
    TextCommands.AssignmentOf(name, value);
    assert AliasArg(a, name + "=" + value) == (AliasManager.Set(a, name, v), "", true);
    var a1 := AliasManager.Set(a, name, v);
    AliasManager.SetGet(a, name, v, name);
    assert '=' !in name;
    assert AliasArg(a1, name) == (a1, AliasLine(name, v) + "\n", true);
    AliasEachOne(a1, name);
    assert inv.args[1..] == [name];
  }

  /** A bare name that is not defined ends the run with exit code 1 and leaves the table alone. */
  lemma AliasNotFound(inv: Invocation, name: string)
    requires inv.extras.aliases.Some? && '=' !in name
    requires AliasManager.GetAlias(inv.extras.aliases.value, name).None?
    requires |inv.args| > 0 && inv.args[0] == name
    ensures Alias(inv).exitCode == 1
    ensures Alias(inv).stdout == "alias: " + name + ": not found\n"
    ensures Alias(inv).aliases == inv.extras.aliases
  {
  }

  /** An argument that starts with '=' is refused before anything after it runs. */
  lemma AliasEmptyName(inv: Invocation, value: string)
    requires inv.extras.aliases.Some?
    requires |inv.args| > 0 && inv.args[0] == "=" + value
    ensures Alias(inv).exitCode == 1
    ensures Alias(inv).stdout == "alias: invalid alias name\n"
    ensures Alias(inv).aliases == inv.extras.aliases
  {
    TextCommands.AssignmentOf("", value);
    assert "" + "=" + value == "=" + value;
  }

  // ---------------------------------------------------------------------------
  // unalias

  /** The loop over the names: each is removed, a missing one is reported and remembered. */
  function UnaliasEach(a: Aliases, names: seq<string>): (r: (Aliases, string, bool))
    ensures |names| == 0 ==> r == (a, "", false)
    decreases |names|
  {
    if |names| == 0 then (a, "", false)
    else
      var (a1, existed) := AliasManager.Unset(a, names[0]);
      var (a2, out, failed) := UnaliasEach(a1, names[1..]);
      (a2, (if existed then "" else "unalias: " + names[0] + ": not found\n") + out, !existed || failed)
  }

  /** `unaliasCommand.execute`. `-a` restores the built-in aliases rather than emptying the table. */
  function Unalias(inv: Invocation): (r: Outcome)
    ensures r.fs == inv.fs && r.env == inv.env && r.output == ""
    ensures r.exitCode == 0 || r.exitCode == 1
    ensures inv.extras.aliases.None? ==> r.exitCode == 1 && r.stdout == NoManager && r.aliases.None?
    ensures inv.extras.aliases.Some? && Truthy(inv.flags, "a") ==> r.exitCode == 0 && r.aliases == Some(AliasManager.Initial)
    ensures inv.extras.aliases.Some? && !Truthy(inv.flags, "a") && |inv.args| == 0 ==> r.exitCode == 1 && r.stdout == UnaliasUsage
  {
    match inv.extras.aliases
    case None => Finish(inv, 1, NoManager)
    case Some(a) =>
      if Truthy(inv.flags, "a") then
        Outcome(0, "", "", inv.fs, inv.env, Some(AliasManager.Reset(a)))
      else if |inv.args| == 0 then Finish(inv, 1, UnaliasUsage)
      else
        var (a', out, failed) := UnaliasEach(a, inv.args);
        Outcome(if failed then 1 else 0, "", out, inv.fs, inv.env, Some(a'))
  }

  /** A name is missing at its turn when the table never had it or an earlier name in the same
      run already removed it. */
  predicate MissingAt(a: Aliases, names: seq<string>, i: nat)
    requires i < |names|
  {
    names[i] !in Keys(a.table) || names[i] in names[..i]
  }

  /** Which names survive one removal. */
  lemma UnsetKeys(a: Aliases, name: string, x: string)
    requires UniqueKeys(a.table)
    ensures x in Keys(AliasManager.Unset(a, name).0.table) <==> x in Keys(a.table) && x != name
  {
    GetRemove(a.table, name, x);
  }

  /** On a table with each name once, `unalias` fails exactly when some name is missing at its
      turn; afterwards none of the names is defined and every other alias is untouched. */
  lemma UnaliasEachSpec(a: Aliases, names: seq<string>, other: string)
    requires UniqueKeys(a.table)
    ensures UnaliasEach(a, names).2 <==> exists i :: 0 <= i < |names| && MissingAt(a, names, i)
    ensures forall i :: 0 <= i < |names| ==> !AliasManager.Has(UnaliasEach(a, names).0, names[i])
    ensures other !in names ==> AliasManager.GetAlias(UnaliasEach(a, names).0, other) == AliasManager.GetAlias(a, other)
    ensures UniqueKeys(UnaliasEach(a, names).0.table)
  {
    UnaliasEachFails(a, names);
    UnaliasEachRemoves(a, names);
    UnaliasEachKeeps(a, names, other);
    UnaliasEachUnique(a, names);
  }

  lemma {:induction false} UnaliasEachUnique(a: Aliases, names: seq<string>)
    requires UniqueKeys(a.table)
    ensures UniqueKeys(UnaliasEach(a, names).0.table)
    decreases |names|
  {
    if |names| == 0 { return; }
    var rest := names[1..];
    assert |rest| < |names|;
    AliasManager.UnsetOnly(a, names[0], names[0]);
    UnaliasEachUnique(AliasManager.Unset(a, names[0]).0, rest);
  }

  lemma {:induction false} UnaliasEachKeeps(a: Aliases, names: seq<string>, other: string)
    requires UniqueKeys(a.table)
    ensures other !in names ==> AliasManager.GetAlias(UnaliasEach(a, names).0, other) == AliasManager.GetAlias(a, other)
    decreases |names|
  {
    if |names| == 0 { return; }
    var rest := names[1..];
    assert |rest| < |names|;
    AliasManager.UnsetOnly(a, names[0], other);
    UnaliasEachKeeps(AliasManager.Unset(a, names[0]).0, rest, other);
    if other !in names {
      assert other !in rest;
    }
  }

  lemma {:induction false} UnaliasEachRemoves(a: Aliases, names: seq<string>)
    requires UniqueKeys(a.table)
    ensures forall i :: 0 <= i < |names| ==> !AliasManager.Has(UnaliasEach(a, names).0, names[i])
    decreases |names|
  {
    if |names| == 0 { return; }
    var n := names[0];
    var rest := names[1..];
    assert |rest| < |names|;
    var a1 := AliasManager.Unset(a, n).0;
    AliasManager.UnsetOnly(a, n, n);
    UnaliasEachRemoves(a1, rest);
    UnaliasEachKeeps(a1, rest, n);
    RemovedShift(a1, UnaliasEach(a1, rest).0, names);
  }

  /** If the tail's names are all gone from a2 and the first name, absent from a1, keeps its
      a1 lookup in a2 unless the tail names it again, then every name is gone from a2. */
  lemma RemovedShift(a1: Aliases, a2: Aliases, names: seq<string>)
    requires |names| > 0 && !AliasManager.Has(a1, names[0])
    requires forall i :: 0 <= i < |names[1..]| ==> !AliasManager.Has(a2, names[1..][i])
    requires names[0] !in names[1..] ==> AliasManager.GetAlias(a2, names[0]) == AliasManager.GetAlias(a1, names[0])
    ensures forall i :: 0 <= i < |names| ==> !AliasManager.Has(a2, names[i])
  {
    forall i | 0 <= i < |names| ensures !AliasManager.Has(a2, names[i]) {
      if i > 0 {
        assert names[i] == names[1..][i - 1];
      } else if names[0] in names[1..] {
        var j :| 0 <= j < |names[1..]| && names[1..][j] == names[0];
      }
    }
  }

  lemma {:induction false} UnaliasEachFails(a: Aliases, names: seq<string>)
    requires UniqueKeys(a.table)
    ensures UnaliasEach(a, names).2 <==> exists i :: 0 <= i < |names| && MissingAt(a, names, i)
    decreases |names|
  {
    if |names| == 0 { return; }
    var rest := names[1..];
    assert |rest| < |names|;
    AliasManager.UnsetOnly(a, names[0], names[0]);
    UnaliasEachFails(AliasManager.Unset(a, names[0]).0, rest);
    MissingShift(a, names);
  }

  lemma MissingStep(a: Aliases, names: seq<string>, i: nat)
    requires UniqueKeys(a.table) && i + 1 < |names|
    ensures MissingAt(AliasManager.Unset(a, names[0]).0, names[1..], i) <==> MissingAt(a, names, i + 1)
  {
    UnsetKeys(a, names[0], names[i + 1]);
    EarlierShift(names, i);
  }

  /** An element occurs before position i + 1 exactly when it is the first one or occurs in the
      tail before position i. */
  lemma EarlierShift<T>(s: seq<T>, i: nat)
    requires i + 1 < |s|
    ensures s[1..][i] == s[i + 1]
    ensures s[i + 1] in s[..i + 1] <==> s[i + 1] == s[0] || s[i + 1] in s[1..][..i]
  {
    assert s[..i + 1] == [s[0]] + s[1..][..i];
  }

  /** Some name is missing at its turn exactly when the first one is, or some later one is
      after the first is removed. */
  lemma MissingShift(a: Aliases, names: seq<string>)
    requires UniqueKeys(a.table) && |names| > 0
    ensures var a1 := AliasManager.Unset(a, names[0]).0;
      (exists i :: 0 <= i < |names| && MissingAt(a, names, i))
      <==> names[0] !in Keys(a.table) || exists i :: 0 <= i < |names[1..]| && MissingAt(a1, names[1..], i)
  {
    var n := names[0];
    var rest := names[1..];
    var a1 := AliasManager.Unset(a, n).0;
    forall i | 0 <= i < |rest|
      ensures MissingAt(a1, rest, i) <==> MissingAt(a, names, i + 1)
    {
      MissingStep(a, names, i);
    }
    assert MissingAt(a, names, 0) <==> n !in Keys(a.table);
    if exists i :: 0 <= i < |names| && MissingAt(a, names, i) {
      var i :| 0 <= i < |names| && MissingAt(a, names, i);
      if i > 0 {
        assert MissingAt(a1, rest, i - 1);
      }
    }
  }

  /** `unalias name` on a defined alias removes exactly that alias and succeeds. */
  lemma UnaliasRemoves(inv: Invocation, name: string)
    requires inv.extras.aliases.Some? && UniqueKeys(inv.extras.aliases.value.table)
    requires !Truthy(inv.flags, "a") && inv.args == [name]
    requires AliasManager.Has(inv.extras.aliases.value, name)
    ensures Unalias(inv).exitCode == 0 && Unalias(inv).stdout == ""
    ensures Unalias(inv).aliases == Some(AliasManager.Unset(inv.extras.aliases.value, name).0)
    ensures !AliasManager.Has(Unalias(inv).aliases.value, name)
  {
    AliasManager.UnsetOnly(inv.extras.aliases.value, name, name);
    assert inv.args[1..] == [];
  }
}
