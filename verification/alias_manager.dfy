/**
 * The alias table: names mapped to replacement text in insertion order, and `resolve`,
 * which expands the first word of an input line once.
 */
module AliasManager {
  import opened Wrappers
  import opened Strings
  import opened OrderedMap

  datatype Aliases = Aliases(table: Entries<string, string>)

  /** The names of the ten built-in aliases, in the order the constructor sets them... */
  const DefaultNames: seq<string> := ["l", "ll", "la", "lt", "..", "...", "~", "h", "c", "cls"]

  /** ...and what each one stands for. */
  const DefaultCommands: seq<string> :=
    ["ls", "ls -la", "ls -a", "ls -lt", "cd ..", "cd ../..", "cd ~", "history", "clear", "clear"]

  const DefaultTable: Entries<string, string> := Zip(DefaultNames, DefaultCommands)

  const Initial := Aliases(DefaultTable)

  /** The first word of trimmed input: the text before its first ' ' (a tab is not a separator). */
  function Head(t: string): (h: string)
    ensures h <= t && ' ' !in h
    ensures |h| < |t| ==> t[|h|] == ' '
  {
    var i := IndexOf(t, ' ');
    if i == -1 then t else t[..i]
  }

  /** The rest of trimmed input, from its first ' ' on (the space included). */
  function Rest(t: string): (r: string)
    ensures t == Head(t) + r
    ensures r == "" || r[0] == ' '
  {
    var i := IndexOf(t, ' ');
    if i == -1 then "" else t[i..]
  }

  function Resolve(a: Aliases, input: string): string {
    var trimmed := Trim(input);
    if trimmed == "" then trimmed
    else
      var commandPart := Head(trimmed);
      var restPart := Rest(trimmed);
      match Get(a.table, commandPart)
      case Some(value) => if value != "" then value + restPart else input
      case None => input
  }

  function Set(a: Aliases, name: string, command: string): Aliases {
    Aliases(Put(a.table, name, command))
  }

  /** `unset` reports whether the alias existed. */
  function Unset(a: Aliases, name: string): (r: (Aliases, bool))
    ensures r.1 <==> name in Keys(a.table)
    ensures !r.1 ==> r.0 == a
  {
    (Aliases(Remove(a.table, name)), name in Keys(a.table))
  }

  function GetAlias(a: Aliases, name: string): Option<string> {
    Get(a.table, name)
  }

  predicate Has(a: Aliases, name: string) {
    name in Keys(a.table)
  }

  /** `getAll` returns a copy: a value, so later changes to the table cannot reach it. */
  function GetAll(a: Aliases): Entries<string, string> {
    a.table
  }

  function Clear(a: Aliases): (r: Aliases)
    ensures forall name :: !Has(r, name)
  {
    Aliases([])
  }

  function Reset(a: Aliases): Aliases {
    Aliases(DefaultTable)
  }

  // ---------------------------------------------------------------------------

  /** The signatures of the built-in names, in order. */
  const DefaultSigs: seq<int> := [364, 620, 609, 628, 558, 814, 382, 360, 355, 883]

  lemma DefaultSigsMatch()
    ensures forall i :: 0 <= i < |DefaultNames| ==> |DefaultNames[i]| > 0 && Sig(DefaultNames[i]) == DefaultSigs[i]
  {
  }

  /** Names whose signatures differ pairwise are distinct keys. */
  lemma {:induction false} SigsDistinct(ks: seq<string>, vs: seq<string>, sigs: seq<int>)
    requires |ks| == |vs| == |sigs|
    requires forall i :: 0 <= i < |ks| ==> |ks[i]| > 0 && Sig(ks[i]) == sigs[i]
    requires forall i, j :: 0 <= i < j < |sigs| ==> sigs[i] != sigs[j]
    ensures UniqueKeys(Zip(ks, vs))
  {
    var m := Zip(ks, vs);
    forall i, j | 0 <= i < j < |m|
      ensures m[i].0 != m[j].0
    {
      assert m[i].0 == ks[i] && m[j].0 == ks[j];
    }
  }

  lemma DefaultSigsDiffer()
    ensures forall i, j :: 0 <= i < j < |DefaultSigs| ==> DefaultSigs[i] != DefaultSigs[j]
  {
  }

  /** No name occurs twice among the built-in aliases: their length and last character
      already tell them apart. */
  lemma DefaultUnique()
    ensures UniqueKeys(DefaultTable)
  {
    DefaultSigsMatch();
    DefaultSigsDiffer();
    SigsDistinct(DefaultNames, DefaultCommands, DefaultSigs);
  }

  /** After construction and after `reset` the table is exactly the ten built-ins, each name once. */
  lemma DefaultAliases(a: Aliases)
    ensures Keys(Initial.table) == ["l", "ll", "la", "lt", "..", "...", "~", "h", "c", "cls"]
    ensures Reset(a) == Initial
    ensures UniqueKeys(Initial.table)
  {
    DefaultUnique();
  }

  /** A name's length and last character, as one number. */
  function Sig(s: string): int
    requires |s| > 0
  {
    |s| * 256 + s[|s| - 1] as int
  }

  /** Blank input resolves to "". */
  lemma ResolveBlank(a: Aliases, input: string)
    requires forall i :: 0 <= i < |input| ==> IsSpace(input[i])
    ensures Resolve(a, input) == ""
  {
    TrimEmptyIffBlank(input);
  }

  /** The result in terms of the head and rest of the trimmed input: an alias with a non-empty
      value is replaced by that value followed by the rest; anything else gives the input
      back untrimmed. */
  lemma ResolveCases(a: Aliases, input: string)
    ensures var t := Trim(input);
      && (t == "" <==> forall i :: 0 <= i < |input| ==> IsSpace(input[i]))
      && (t != "" && GetAlias(a, Head(t)).Some? && GetAlias(a, Head(t)).value != "" ==>
            Resolve(a, input) == GetAlias(a, Head(t)).value + Rest(t))
      && (t != "" && (GetAlias(a, Head(t)).None? || GetAlias(a, Head(t)).value == "") ==>
            Resolve(a, input) == input)
  {
    TrimEmptyIffBlank(input);
  }

  /** Expansion happens once: a one-word alias gives its value back even when that value is
      itself an alias name. */
  lemma ResolveOnce(a: Aliases, name: string)
    requires |name| > 0 && forall i :: 0 <= i < |name| ==> !IsSpace(name[i])
    requires GetAlias(a, name).Some? && GetAlias(a, name).value != ""
    ensures Resolve(a, name) == GetAlias(a, name).value
  {
    assert Trim(name) == name;
  }

  /** Only ' ' ends the head word: a head containing a tab is looked up whole. */
  lemma ResolveTabInHead(a: Aliases, w1: string, w2: string)
    requires |w1| > 0 && |w2| > 0
    requires forall i :: 0 <= i < |w1| ==> !IsSpace(w1[i])
    requires forall i :: 0 <= i < |w2| ==> !IsSpace(w2[i])
    requires GetAlias(a, w1 + "\t" + w2).None?
    ensures Resolve(a, w1 + "\t" + w2) == w1 + "\t" + w2
  {
    var t := w1 + "\t" + w2;
    assert t[0] == w1[0] && t[|t| - 1] == w2[|w2| - 1];
    assert Trim(t) == t;
    assert ' ' !in t by {
      forall i | 0 <= i < |t| ensures t[i] != ' ' {
        if i < |w1| { assert t[i] == w1[i]; }
        else if i > |w1| { assert t[i] == w2[i - |w1| - 1]; }
      }
    }
  }

  /** `set` then `get` returns the value; other names are unaffected. */
  lemma SetGet(a: Aliases, name: string, command: string, other: string)
    ensures GetAlias(Set(a, name, command), name) == Some(command)
    ensures other != name ==> GetAlias(Set(a, name, command), other) == GetAlias(a, other)
    ensures UniqueKeys(a.table) ==> UniqueKeys(Set(a, name, command).table)
  {
    GetPut(a.table, name, command, name);
    GetPut(a.table, name, command, other);
    if UniqueKeys(a.table) {
      PutUnique(a.table, name, command);
    }
  }

  /** `unset` removes only that name. */
  lemma UnsetOnly(a: Aliases, name: string, other: string)
    requires UniqueKeys(a.table)
    ensures !Has(Unset(a, name).0, name)
    ensures other != name ==> GetAlias(Unset(a, name).0, other) == GetAlias(a, other)
    ensures UniqueKeys(Unset(a, name).0.table)
  {
    GetRemove(a.table, name, name);
    GetRemove(a.table, name, other);
    RemoveUnique(a.table, name);
  }
}
