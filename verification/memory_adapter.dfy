/**
 * `MemoryAdapter`: the in-memory storage adapter, a `Map` from keys to stored values. The deep
 * copies made on `save` and `load` mean the store holds values, not shared objects, which is
 * what an immutable `V` gives directly.
 */
module MemoryAdapter {
  import opened Wrappers
  import opened OrderedMap

  datatype Store<V> = Store(entries: Entries<string, V>)

  function New<V>(): Store<V> {
    Store([])
  }

  /** A new store lists no key. */
  lemma NewLists<V>(st: Store<V>)
    requires st == New()
    ensures List(st) == []
  {
  }

  predicate Valid<V>(st: Store<V>) {
    UniqueKeys(st.entries)
  }

  /** `save(key, data)`. */
  function Save<V>(st: Store<V>, key: string, data: V): (r: Store<V>)
    ensures key in List(st) ==> List(r) == List(st)
    ensures key !in List(st) ==> List(r) == List(st) + [key]
  {
    Store(Put(st.entries, key, data))
  }

  /** `load(key)`: None stands for `null`, returned for a key never saved or since removed. */
  function Load<V>(st: Store<V>, key: string): (r: Option<V>)
    ensures r.None? <==> key !in List(st)
  {
    Get(st.entries, key)
  }

  /** `remove(key)`. */
  function Remove<V>(st: Store<V>, key: string): (r: Store<V>)
    ensures key !in List(st) ==> r == st
  {
    Store(OrderedMap.Remove(st.entries, key))
  }

  /** `list()`: the keys in first-insertion order. */
  function List<V>(st: Store<V>): seq<string> {
    Keys(st.entries)
  }

  function Clear<V>(st: Store<V>): (r: Store<V>)
    ensures List(r) == []
  {
    Store([])
  }

  /** A saved value is what a later load returns; other keys are unaffected. */
  lemma LoadSave<V>(st: Store<V>, key: string, data: V, other: string)
    ensures Load(Save(st, key, data), key) == Some(data)
    ensures other != key ==> Load(Save(st, key, data), other) == Load(st, other)
  {
    GetPut(st.entries, key, data, key);
    GetPut(st.entries, key, data, other);
  }

  /** After `remove`, loading the key gives null and every other key is unchanged. */
  lemma LoadRemove<V>(st: Store<V>, key: string, other: string)
    requires Valid(st)
    ensures Load(Remove(st, key), key) == None
    ensures other != key ==> Load(Remove(st, key), other) == Load(st, other)
    ensures Valid(Remove(st, key))
  {
    GetRemove(st.entries, key, key);
    GetRemove(st.entries, key, other);
    RemoveUnique(st.entries, key);
  }

  /** `remove` deletes exactly that key from the listing, keeping the others' order. */
  lemma ListRemove<V>(st: Store<V>, key: string)
    requires key in List(st)
    ensures var i := KeyIndex(st.entries, key);
      List(Remove(st, key)) == List(st)[..i] + List(st)[i + 1..]
  {
    RemoveAt(st.entries, key);
    var i := KeyIndex(st.entries, key);
    KeysSplice(st.entries, i);
  }

  lemma KeysSplice<V>(m: Entries<string, V>, i: nat)
    requires i < |m|
    ensures Keys(m[..i] + m[i + 1..]) == Keys(m)[..i] + Keys(m)[i + 1..]
  {
  }

  /** Saving keeps keys unique, so a store built by `save` calls is always valid. */
  lemma SaveValid<V>(st: Store<V>, key: string, data: V)
    requires Valid(st)
    ensures Valid(Save(st, key, data))
  {
    PutUnique(st.entries, key, data);
  }
}
