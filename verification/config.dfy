/**
 * `defaultConfig` and `mergeConfig`. A configuration property can be absent, present but
 * `undefined`, or defined; object spread copies the last two and skips the first. Fields other
 * than the five with defaults are copied from the user configuration and are not modelled.
 */
module Config {
  import opened Wrappers
  import opened OrderedMap

  datatype Prop<T> = Absent | Undefined | Defined(value: T)

  /** A string-keyed plain object, in property order. */
  type Record<V> = Entries<string, V>

  datatype UserConfig<H> = UserConfig(
    includeDefaultCommands: Prop<bool>,
    autoSaveSession: Prop<bool>,
    env: Prop<Record<string>>,
    initialPath: Prop<string>,
    hooks: Prop<Record<H>>)

  /** The merged configuration; `env` and `hooks` are always objects. */
  datatype Merged<H> = Merged(
    includeDefaultCommands: Prop<bool>,
    autoSaveSession: Prop<bool>,
    initialPath: Prop<string>,
    env: Record<string>,
    hooks: Record<H>)

  const DefaultEnv: Record<string> := [("HOME", "/home"), ("PATH", "/bin"), ("USER", "user")]

  /** `defaultConfig`: both flags on, '/home', the three environment variables, no hooks. */
  function Defaults<H>(): Merged<H> {
    Merged(Defined(true), Defined(true), Defined("/home"), DefaultEnv, [])
  }

  /** What the defaults hold, read back through the object's own lookups. */
  lemma DefaultValues<H>(r: Merged<H>)
    requires r == Defaults()
    ensures r.includeDefaultCommands == Defined(true) && r.autoSaveSession == Defined(true)
    ensures r.initialPath == Defined("/home") && r.hooks == []
    ensures Get(r.env, "HOME") == Some("/home") && Get(r.env, "PATH") == Some("/bin")
    ensures Get(r.env, "USER") == Some("user") && Keys(r.env) == ["HOME", "PATH", "USER"]
  {
  }

  /** `{...base, ...over}` for one property. */
  function Override<T>(base: Prop<T>, over: Prop<T>): (r: Prop<T>)
    ensures over.Absent? ==> r == base
    ensures !over.Absent? ==> r == over
  {
    if over.Absent? then base else over
  }

  /** `{...base, ...over}` for two objects: `over`'s properties win, new ones go at the end. */
  function Spread<V>(base: Record<V>, over: Record<V>): Record<V>
    decreases |over|
  {
    if |over| == 0 then base else Spread(Put(base, over[0].0, over[0].1), over[1..])
  }

  /** Spreading an undefined or absent object adds nothing. */
  function SpreadProp<V>(base: Record<V>, over: Prop<Record<V>>): Record<V> {
    if over.Defined? then Spread(base, over.value) else base
  }

  /** `mergeConfig(userConfig)`; None is a call with no argument. */
  function MergeConfig<H>(user: Option<UserConfig<H>>): (r: Merged<H>)
    ensures user.None? ==> r == Defaults()
    ensures user.Some? ==>
      && r.includeDefaultCommands == Override(Defined(true), user.value.includeDefaultCommands)
      && r.autoSaveSession == Override(Defined(true), user.value.autoSaveSession)
      && r.initialPath == Override(Defined("/home"), user.value.initialPath)
  {
    match user
    case None => Defaults()
    case Some(u) =>
      var d := Defaults<H>();
      Merged(
        Override(d.includeDefaultCommands, u.includeDefaultCommands),
        Override(d.autoSaveSession, u.autoSaveSession),
        Override(d.initialPath, u.initialPath),
        SpreadProp(d.env, u.env),
        SpreadProp(d.hooks, u.hooks))
  }

  /** A spread object holds `over`'s value for every key it has and `base`'s for the rest. */
  lemma {:induction false} GetSpread<V>(base: Record<V>, over: Record<V>, k: string)
    requires UniqueKeys(over)
    ensures Get(Spread(base, over), k) == if k in Keys(over) then Get(over, k) else Get(base, k)
    decreases |over|
  {
    if |over| > 0 {
      var (k0, v0) := over[0];
      assert UniqueKeys(over[1..]);
      GetSpread(Put(base, k0, v0), over[1..], k);
      GetPut(base, k0, v0, k);
      assert Keys(over) == [k0] + Keys(over[1..]);
      if k == k0 {
        assert k !in Keys(over[1..]) by {
          forall i | 0 <= i < |over| - 1
            ensures over[1..][i].0 != k0
          {
            assert over[i + 1].0 != over[0].0;
          }
        }
      }
    }
  }

  /** A spread object lists `base`'s keys first, in their order: the insertion order a
      JavaScript object keeps for keys that are not array indices. */
  lemma {:induction false} SpreadKeepsOrder<V>(base: Record<V>, over: Record<V>)
    ensures Keys(base) <= Keys(Spread(base, over))
    decreases |over|
  {
    if |over| > 0 {
      var next := Put(base, over[0].0, over[0].1);
      SpreadKeepsOrder(next, over[1..]);
      assert Keys(base) <= Keys(next);
    }
  }

  /** The environment merges key by key: the user's values win and default keys the user does
      not set survive. The same holds for hooks, whose defaults are empty. */
  lemma MergedEnv<H>(u: UserConfig<H>, k: string)
    requires u.env.Defined? ==> UniqueKeys(u.env.value)
    requires u.hooks.Defined? ==> UniqueKeys(u.hooks.value)
    ensures var m := MergeConfig(Some(u));
      Get(m.env, k) == if u.env.Defined? && k in Keys(u.env.value) then Get(u.env.value, k) else Get(DefaultEnv, k)
    ensures var m := MergeConfig(Some(u));
      Get(m.hooks, k) == if u.hooks.Defined? then Get(u.hooks.value, k) else None
  {
    if u.env.Defined? {
      GetSpread(DefaultEnv, u.env.value, k);
    }
    if u.hooks.Defined? {
      GetSpread([], u.hooks.value, k);
      if k !in Keys(u.hooks.value) {
        assert Get(u.hooks.value, k) == None;
      }
    }
  }
}
