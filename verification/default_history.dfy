/**
 * `DefaultHistoryManager`: the command history kept by the executor's host, with a browsing
 * position that is -1 when not browsing.
 */
module DefaultHistory {
  import opened Wrappers
  import opened Strings

  datatype History = History(entries: seq<string>, position: int, maxSize: nat)

  /** The constructor; 1000 is the default maximum size. */
  function New(maxSize: nat): History {
    History([], -1, maxSize)
  }

  const DefaultMaxSize: nat := 1000

  /** The position is -1 or a valid index into the history. */
  predicate Valid(h: History) {
    h.position == -1 || 0 <= h.position < |h.entries|
  }

  /** `s.slice(-n)`: the last n elements; `slice(-0)` is `slice(0)`, the whole list. */
  function LastN(s: seq<string>, n: nat): (r: seq<string>)
    ensures n == 0 || |s| <= n ==> r == s
    ensures 0 < n <= |s| ==> |r| == n && r == s[|s| - n..]
  {
    if n == 0 || |s| <= n then s else s[|s| - n..]
  }

  /** `history[i]`: undefined outside the list. */
  function At(s: seq<string>, i: int): (r: Option<string>)
    ensures r.Some? <==> 0 <= i < |s|
  {
    if 0 <= i < |s| then Some(s[i]) else None
  }

  predicate Ignored(h: History, command: string) {
    Trim(command) == "" || (|h.entries| > 0 && command == h.entries[|h.entries| - 1])
  }

  /** `add`: blank commands and repeats of the last entry are ignored; otherwise the command is
      appended, the oldest entries beyond `maxSize` are dropped, and browsing stops. */
  function Add(h: History, command: string): (r: History)
    ensures Ignored(h, command) ==> r == h
    ensures !Ignored(h, command) ==>
      && r.position == -1 && r.maxSize == h.maxSize
      && 0 < |r.entries| <= |h.entries| + 1 && r.entries[|r.entries| - 1] == command
      && r.entries == (h.entries + [command])[|h.entries| + 1 - |r.entries|..]
      && (h.maxSize > 0 ==> |r.entries| == if |h.entries| + 1 <= h.maxSize then |h.entries| + 1 else h.maxSize)
      && (h.maxSize == 0 ==> r.entries == h.entries + [command])
    ensures Valid(h) ==> Valid(r)
  {
    if Ignored(h, command) then h
    else History(Pushed(h.entries, command, h.maxSize), -1, h.maxSize)
  }

  /** The entries after a push: the command appended, then only the last `maxSize` kept. */
  function Pushed(entries: seq<string>, command: string, maxSize: nat): (r: seq<string>)
    ensures 0 < |r| <= |entries| + 1 && r[|r| - 1] == command
    ensures r == (entries + [command])[|entries| + 1 - |r|..]
    ensures maxSize > 0 ==> |r| == if |entries| + 1 <= maxSize then |entries| + 1 else maxSize
    ensures maxSize == 0 ==> r == entries + [command]
  {
    var pushed := entries + [command];
    if |pushed| > maxSize then LastN(pushed, maxSize) else pushed
  }

  function Get(h: History, index: int): Option<string> {
    At(h.entries, index)
  }

  /** `getPrevious`: from -1 jump to the newest entry, otherwise step back, sticking at 0. */
  function GetPrevious(h: History): (r: (History, Option<string>))
    ensures |h.entries| == 0 ==> r == (h, None)
    ensures Valid(h) && |h.entries| > 0 ==>
      && 0 <= r.0.position < |h.entries| && r.1 == Some(h.entries[r.0.position])
      && r.0.position == (if h.position == -1 then |h.entries| - 1 else if h.position > 0 then h.position - 1 else 0)
    ensures Valid(h) ==> Valid(r.0)
    ensures r.0.entries == h.entries && r.0.maxSize == h.maxSize
  {
    if |h.entries| == 0 then (h, None)
    else
      var p := if h.position == -1 then |h.entries| - 1 else if h.position > 0 then h.position - 1 else h.position;
      (h.(position := p), At(h.entries, p))
  }

  /** `getNext`: at -1 or at the newest entry, stop browsing and return ""; otherwise step forward. */
  function GetNext(h: History): (r: (History, Option<string>))
    ensures h.position == -1 || h.position >= |h.entries| - 1 ==> r == (h.(position := -1), Some(""))
    ensures Valid(h) && h.position != -1 && h.position < |h.entries| - 1 ==>
      r.0.position == h.position + 1 && r.1 == Some(h.entries[h.position + 1])
    ensures Valid(h) ==> Valid(r.0)
    ensures r.0.entries == h.entries && r.0.maxSize == h.maxSize
  {
    if h.position == -1 || h.position >= |h.entries| - 1 then (h.(position := -1), Some(""))
    else (h.(position := h.position + 1), At(h.entries, h.position + 1))
  }

  /** `getAll` returns a copy, which as a value is the list itself. */
  function GetAll(h: History): seq<string> {
    h.entries
  }

  predicate Matches(command: string, query: string) {
    Contains(ToLower(command), ToLower(query))
  }

  /** `search`: a case-insensitive substring filter. */
  function Search(h: History, query: string): (r: seq<string>)
    ensures forall c :: c in r <==> c in h.entries && Matches(c, query)
  {
    Filter(h.entries, c => Matches(c, query))
  }

  /** Search results keep history order: a new entry can only add a match at the end. */
  lemma SearchAppend(h: History, command: string, query: string)
    ensures Search(h.(entries := h.entries + [command]), query)
         == Search(h, query) + (if Matches(command, query) then [command] else [])
  {
    FilterAppend(h.entries, command, c => Matches(c, query));
  }

  function Clear(h: History): (r: History)
    ensures r.entries == [] && r.position == -1 && Valid(r)
  {
    h.(entries := [], position := -1)
  }

  /** What the storage adapter's `load` produced. */
  datatype Stored = StoredList(items: seq<string>) | StoredOther | StoredNull | LoadFailed

  /** `load`: only an array replaces the history (even beyond `maxSize`); anything else, including
      a storage error, leaves it unchanged. */
  function Load(h: History, outcome: Stored): (r: History)
    ensures outcome.StoredList? ==> r.entries == outcome.items && r.position == -1 && r.maxSize == h.maxSize
    ensures !outcome.StoredList? ==> r == h
    ensures Valid(h) ==> Valid(r)
  {
    match outcome
    case StoredList(items) => h.(entries := items, position := -1)
    case _ => h
  }

  /** The data `persist` saves; it never changes the history. */
  function Persist(h: History): seq<string> {
    h.entries
  }

  /** Loading what was persisted restores the entries. */
  lemma PersistLoad(h: History, other: History)
    ensures Load(other, StoredList(Persist(h))).entries == h.entries
  {
  }

  /** Stepping back and then forward returns to the same position, except at the oldest entry. */
  lemma PreviousThenNext(h: History)
    requires Valid(h) && |h.entries| > 0 && h.position != 0
    ensures var (h1, _) := GetPrevious(h);
      GetNext(h1).0.position == h.position
  {
  }

  /** Browsing from the start walks back through the history, newest first. */
  lemma {:induction false} PreviousWalk(h: History, k: nat)
    requires Valid(h) && h.position == -1 && 0 < k <= |h.entries|
    ensures var (h', c) := PreviousTimes(h, k);
      h'.entries == h.entries && h'.position == |h.entries| - k && c == Some(h.entries[|h.entries| - k])
    decreases k
  {
    if k > 1 {
      PreviousWalk(h, k - 1);
    }
  }

  function PreviousTimes(h: History, k: nat): (History, Option<string>)
    requires k > 0
    decreases k
  {
    if k == 1 then GetPrevious(h) else GetPrevious(PreviousTimes(h, k - 1).0)
  }
}
