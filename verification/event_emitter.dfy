/**
 * `EventEmitter`: a registry of listeners per event name. Listeners are opaque values of type
 * `L` compared by identity (`L` is the function object); `emit` is modelled by the sequence of
 * listeners it calls, which it awaits one at a time in that order.
 */
module EventEmitter {
  import opened Wrappers
  import opened OrderedMap

  datatype Emitter<L> = Emitter(events: Entries<string, seq<L>>)

  function New<L>(): Emitter<L> {
    Emitter([])
  }

  predicate Valid<L>(em: Emitter<L>) {
    UniqueKeys(em.events)
  }

  /** The listeners registered for `event`, in registration order. */
  function Listeners<L>(em: Emitter<L>, event: string): seq<L> {
    GetOr(Get(em.events, event), [])
  }

  /** `listeners.indexOf(l)`. */
  function FirstIndex<L(==)>(s: seq<L>, l: L): (i: int)
    ensures -1 <= i < |s|
    ensures i == -1 <==> l !in s
    ensures i >= 0 ==> s[i] == l && l !in s[..i]
  {
    if |s| == 0 then -1
    else if s[0] == l then 0
    else
      var j := FirstIndex(s[1..], l);
      assert j >= 0 ==> s[..j + 1] == [s[0]] + s[1..][..j];
      if j == -1 then -1 else j + 1
  }

  /** `on`: appends the listener to the event's list, creating the list if needed; duplicates
      are kept. */
  function On<L>(em: Emitter<L>, event: string, l: L): (r: Emitter<L>)
    ensures Listeners(r, event) == Listeners(em, event) + [l]
    ensures Valid(em) ==> Valid(r)
  {
    var ls := Listeners(em, event);
    GetPut(em.events, event, ls + [l], event);
    PutKeepsUnique(em.events, event, ls + [l]);
    Emitter(Put(em.events, event, ls + [l]))
  }

  /** The list without the first occurrence of `l`: the splice at `indexOf`. */
  function WithoutFirst<L(==)>(ls: seq<L>, l: L): (r: seq<L>)
    ensures l !in ls ==> r == ls
    ensures l in ls ==> |r| == |ls| - 1
  {
    var i := FirstIndex(ls, l);
    if i == -1 then ls else ls[..i] + ls[i + 1..]
  }

  /** Exactly one copy of a present listener goes. */
  lemma WithoutFirstRemovesOne<L>(ls: seq<L>, l: L)
    requires l in ls
    ensures multiset(WithoutFirst(ls, l)) == multiset(ls) - multiset{l}
  {
    var i := FirstIndex(ls, l);
    var r := ls[..i] + ls[i + 1..];
    assert ls == ls[..i] + ([l] + ls[i + 1..]);
    assert multiset(ls) == multiset(ls[..i]) + multiset{l} + multiset(ls[i + 1..]);
    assert multiset(r) == multiset(ls[..i]) + multiset(ls[i + 1..]);
  }

  /** The other listeners keep their order: those before the first occurrence stay where they
      were, those after it move up by one. */
  lemma WithoutFirstKeepsOrder<L>(ls: seq<L>, l: L)
    requires l in ls
    ensures var i := FirstIndex(ls, l);
      && (forall j :: 0 <= j < i ==> WithoutFirst(ls, l)[j] == ls[j])
      && (forall j :: i <= j < |ls| - 1 ==> WithoutFirst(ls, l)[j] == ls[j + 1])
  {
    var i := FirstIndex(ls, l);
    var r := WithoutFirst(ls, l);
    assert r == ls[..i] + ls[i + 1..];
    forall j | 0 <= j < i
      ensures r[j] == ls[j]
    {
      assert r[j] == ls[..i][j];
    }
    forall j | i <= j < |ls| - 1
      ensures r[j] == ls[j + 1]
    {
      assert r[j] == ls[i + 1..][j - i];
    }
  }

  /** `off`: removes the first occurrence of the listener, if any. */
  function Off<L(==)>(em: Emitter<L>, event: string, l: L): (r: Emitter<L>)
    ensures Listeners(r, event) == WithoutFirst(Listeners(em, event), l)
    ensures l !in Listeners(em, event) ==> r == em
    ensures Valid(em) ==> Valid(r)
  {
    match Get(em.events, event)
    case None => em
    case Some(ls) =>
      if l !in ls then em
      else
        var kept := WithoutFirst(ls, l);
        GetPut(em.events, event, kept, event);
        PutKeepsUnique(em.events, event, kept);
        Emitter(Put(em.events, event, kept))
  }

  /** `emit`: the listeners called, in order; none for an unknown event. */
  function Emit<L>(em: Emitter<L>, event: string): (calls: seq<L>)
    ensures event !in Keys(em.events) ==> calls == []
  {
    match Get(em.events, event)
    case None => []
    case Some(ls) => ls
  }

  /** `removeAllListeners(event)`: a non-empty name drops that event; '' or no argument drops all. */
  function RemoveAllListeners<L>(em: Emitter<L>, event: string): (r: Emitter<L>)
    ensures event == "" ==> r.events == []
    ensures Valid(em) ==> Valid(r)
  {
    if event != "" then
      RemoveKeepsUnique(em.events, event);
      Emitter(Remove(em.events, event))
    else Emitter([])
  }

  lemma PutKeepsUnique<V>(m: Entries<string, V>, k: string, v: V)
    ensures UniqueKeys(m) ==> UniqueKeys(Put(m, k, v))
  {
    if UniqueKeys(m) {
      PutUnique(m, k, v);
    }
  }

  lemma RemoveKeepsUnique<V>(m: Entries<string, V>, k: string)
    ensures UniqueKeys(m) ==> UniqueKeys(Remove(m, k))
  {
    if UniqueKeys(m) {
      RemoveUnique(m, k);
    }
  }

  /** Registration order is call order. */
  lemma EmitAfterOn<L>(em: Emitter<L>, event: string, l: L)
    ensures Emit(On(em, event, l), event) == Emit(em, event) + [l]
  {
    GetPut(em.events, event, Listeners(em, event) + [l], event);
  }

  /** Registering a listener leaves every other event alone. */
  lemma OnOthers<L>(em: Emitter<L>, event: string, l: L, other: string)
    requires other != event
    ensures Emit(On(em, event, l), other) == Emit(em, other)
  {
    GetPut(em.events, event, Listeners(em, event) + [l], other);
  }

  /** Removing a listener that was just added for the first time restores the list. */
  lemma OnThenOff<L>(em: Emitter<L>, event: string, l: L)
    requires l !in Listeners(em, event)
    ensures Listeners(Off(On(em, event, l), event, l), event) == Listeners(em, event)
  {
    var ls := Listeners(em, event);
    assert FirstIndex(ls + [l], l) == |ls| by {
      assert (ls + [l])[..|ls|] == ls;
    }
    assert (ls + [l])[..|ls|] == ls;
  }

  /** `off` only touches its own event. */
  lemma OffOthers<L>(em: Emitter<L>, event: string, l: L, other: string)
    requires other != event
    ensures Emit(Off(em, event, l), other) == Emit(em, other)
  {
    match Get(em.events, event)
    case None =>
    case Some(ls) =>
      if l in ls {
        GetPut(em.events, event, WithoutFirst(ls, l), other);
      }
  }

  /** Dropping one event leaves the others' listeners in place and the dropped one silent. */
  lemma RemoveAllListenersEffect<L>(em: Emitter<L>, event: string, other: string)
    requires Valid(em)
    ensures event != "" ==> Emit(RemoveAllListeners(em, event), event) == []
    ensures event != "" && other != event ==> Emit(RemoveAllListeners(em, event), other) == Emit(em, other)
    ensures event == "" ==> Emit(RemoveAllListeners(em, event), other) == []
  {
    if event != "" {
      GetRemove(em.events, event, event);
      GetRemove(em.events, event, other);
    }
  }
}
