/**
 * The state-bearing logic of the terminal's input line: the `InputHistoryManager` cursor, the
 * common-prefix and delete-word helpers, and the text rewriting done on Tab completion.
 * Keyboard, focus and selection wiring stay outside the model; the input element is a `Field`.
 */
module InputHandler {
  import opened Wrappers
  import opened Strings

  // ---------------------------------------------------------------------------
  // InputHistoryManager

  /** The index runs from -1 (fresh) up to `|entries|` (past the newest entry: the live input). */
  datatype InputHistory = InputHistory(entries: seq<string>, index: int, currentInput: string)

  function NewInputHistory(): InputHistory {
    InputHistory([], -1, "")
  }

  predicate Valid(h: InputHistory) {
    -1 <= h.index <= |h.entries|
  }

  predicate Appends(h: InputHistory, command: string) {
    Trim(command) != "" && (|h.entries| == 0 || h.entries[|h.entries| - 1] != command)
  }

  /** `add`: non-blank commands that differ from the newest entry are appended; the index always
      moves past the newest entry. */
  function Add(h: InputHistory, command: string): (r: InputHistory)
    ensures r.entries == if Appends(h, command) then h.entries + [command] else h.entries
    ensures r.index == |r.entries| && Valid(r)
    ensures r.currentInput == h.currentInput
  {
    var entries := if Appends(h, command) then h.entries + [command] else h.entries;
    InputHistory(entries, |entries|, h.currentInput)
  }

  function Get(h: InputHistory, i: int): (r: Option<string>)
    ensures r.Some? <==> 0 <= i < |h.entries|
    ensures r.Some? ==> r.value == h.entries[i]
  {
    if 0 <= i < |h.entries| then Some(h.entries[i]) else None
  }

  /** `getPrevious`: steps back while the index is positive; otherwise undefined and no move. */
  function GetPrevious(h: InputHistory): (r: (InputHistory, Option<string>))
    ensures h.index > 0 && Valid(h) ==> r.0 == h.(index := h.index - 1) && r.1 == Some(h.entries[h.index - 1])
    ensures h.index <= 0 ==> r == (h, None)
    ensures Valid(h) ==> Valid(r.0)
  {
    if h.index > 0 then (h.(index := h.index - 1), Get(h, h.index - 1)) else (h, None)
  }

  /** `getNext`: steps forward up to the newest entry, then past it to the saved live input;
      beyond that, undefined and no move. */
  function GetNext(h: InputHistory): (r: (InputHistory, Option<string>))
    ensures Valid(h) && h.index < |h.entries| - 1 ==>
      r.0 == h.(index := h.index + 1) && r.1 == Some(h.entries[h.index + 1])
    ensures h.index == |h.entries| - 1 ==> r == (h.(index := |h.entries|), Some(h.currentInput))
    ensures h.index >= |h.entries| ==> r == (h, None)
    ensures Valid(h) ==> Valid(r.0)
  {
    if h.index < |h.entries| - 1 then (h.(index := h.index + 1), Get(h, h.index + 1))
    else if h.index == |h.entries| - 1 then (h.(index := |h.entries|), Some(h.currentInput))
    else (h, None)
  }

  /** `search`: a case-sensitive substring filter in history order. */
  function Search(h: InputHistory, query: string): (r: seq<string>)
    ensures forall c :: c in r <==> c in h.entries && Contains(c, query)
  {
    Filter(h.entries, c => Contains(c, query))
  }

  function GetAll(h: InputHistory): seq<string> {
    h.entries
  }

  function Reset(h: InputHistory): (r: InputHistory)
    ensures r.entries == h.entries && r.index == |h.entries| && Valid(r)
  {
    h.(index := |h.entries|)
  }

  function SetCurrentInput(h: InputHistory, input: string): (r: InputHistory)
    ensures r.entries == h.entries && r.index == h.index && r.currentInput == input
  {
    h.(currentInput := input)
  }

  /** One step back and one step forward return to the same place, with the entry or the live
      input that was showing there. */
  lemma PreviousThenNext(h: InputHistory)
    requires Valid(h) && h.index > 0
    ensures var (h1, _) := GetPrevious(h);
      var (h2, shown) := GetNext(h1);
      h2 == h && shown == Some(if h.index < |h.entries| then h.entries[h.index] else h.currentInput)
  {
  }

  /** The input element as far as the handlers see it. */
  datatype Field = Field(value: string, cursor: nat)

  /** `inputElement.value = v` without a following `setSelectionRange`: a text control moves its
      caret to the end when its value changes, and leaves it where it was otherwise. */
  function Assign(f: Field, v: string): (r: Field)
    ensures r.value == v
    ensures v != f.value ==> r.cursor == |v| && CursorOf(r) == |v|
    ensures v == f.value ==> r == f
  {
    if v == f.value then f else Field(v, |v|)
  }

  /** The Up-arrow handler. The live input is saved only when `get(|history| - 1)` is undefined,
      which cannot happen once `getPrevious` returned an entry, so it is never saved. */
  function HistoryUp(h: InputHistory, f: Field): (r: (InputHistory, Field))
    ensures r.0.currentInput == h.currentInput
    ensures GetPrevious(h).1.Some? ==> r.1.value == GetPrevious(h).1.value && r.0 == GetPrevious(h).0
    ensures GetPrevious(h).1.Some? && r.1.value != f.value ==> r.1.cursor == |r.1.value|
    ensures GetPrevious(h).1.None? ==> r == (GetPrevious(h).0, f)
  {
    var (h1, prev) := GetPrevious(h);
    match prev
    case None => (h1, f)
    case Some(p) =>
      var h2 := if Get(h1, |h1.entries| - 1).None? then SetCurrentInput(h1, f.value) else h1;
      (h2, Assign(f, p))
  }

  /** A recalled entry puts the caret at its end, so the next Tab completes at the end of the
      recalled line and not where the caret was in the text typed before. */
  lemma RecalledCaretAtEnd(h: InputHistory, f: Field, st: Completion, answer: Answer)
    requires GetPrevious(h).1.Some? && GetPrevious(h).1.value != f.value
    requires |st.lastSuggestions| <= 1 && |answer.suggestions| == 1
    ensures var g := HistoryUp(h, f).1;
      && CursorOf(g) == |g.value|
      && Tab(g, st, Some(answer)).0.value
         == g.value[..LastIndexOf(g.value, ' ') + 1] + answer.suggestions[0]
  {
    var g := HistoryUp(h, f).1;
    assert g.value[..CursorOf(g)] == g.value;
  }

  /** The Down-arrow handler. */
  function HistoryDown(h: InputHistory, f: Field): (r: (InputHistory, Field))
    ensures r.0 == GetNext(h).0
    ensures r.1.value == if GetNext(h).1.Some? then GetNext(h).1.value else f.value
    ensures r.1.value != f.value ==> r.1.cursor == |r.1.value|
    ensures r.1.value == f.value ==> r.1 == f
  {
    var (h1, next) := GetNext(h);
    (h1, if next.Some? then Assign(f, next.value) else f)
  }

  // ---------------------------------------------------------------------------
  // findCommonPrefix

  predicate CommonTo(p: string, ss: seq<string>) {
    forall i :: 0 <= i < |ss| ==> p <= ss[i]
  }

  /** Every common prefix of `ss` is a prefix of `r`. */
  ghost predicate Longest(r: string, ss: seq<string>) {
    forall p :: CommonTo(p, ss) ==> p <= r
  }

  /** The common prefix of two strings, character by character. */
  function Lcp2(a: string, b: string): (r: string)
    ensures r <= a && r <= b
  {
    if |a| == 0 || |b| == 0 || a[0] != b[0] then "" else [a[0]] + Lcp2(a[1..], b[1..])
  }

  /** `Lcp2` is the longest common prefix of its two arguments. */
  lemma {:induction false} Lcp2Longest(a: string, b: string, p: string)
    requires p <= a && p <= b
    ensures p <= Lcp2(a, b)
  {
    if |p| > 0 {
      assert p[0] == a[0] && p[0] == b[0];
      Lcp2Longest(a[1..], b[1..], p[1..]);
    }
  }

  /** A longest-prefix bound for a list holds for any shorter list it starts with. */
  lemma LongestMore(r: string, shorter: seq<string>, longer: seq<string>)
    requires shorter <= longer && Longest(r, shorter)
    ensures Longest(r, longer)
  {
    forall p | CommonTo(p, longer)
      ensures p <= r
    {
      assert forall i :: 0 <= i < |shorter| ==> shorter[i] == longer[i];
      assert CommonTo(p, shorter);
    }
  }

  /** The longest common prefix of a non-empty list. */
  function Lcp(ss: seq<string>): (r: string)
    requires |ss| >= 1
    ensures CommonTo(r, ss)
    ensures Longest(r, ss)
  {
    if |ss| == 1 then ss[0]
    else
      var rest := Lcp(ss[1..]);
      var r := Lcp2(ss[0], rest);
      assert forall i :: 1 <= i < |ss| ==> ss[i] == ss[1..][i - 1];
      assert Longest(r, ss) by {
        forall p | CommonTo(p, ss)
          ensures p <= r
        {
          assert CommonTo(p, ss[1..]);
          Lcp2Longest(ss[0], rest, p);
        }
      }
      r
  }

  /** `findCommonPrefix`: '' for no strings, otherwise the longest common prefix. */
  function CommonPrefix(ss: seq<string>): (r: string)
    ensures |ss| == 0 ==> r == ""
    ensures |ss| == 1 ==> r == ss[0]
    ensures CommonTo(r, ss)
    ensures |ss| >= 1 ==> Longest(r, ss)
  {
    if |ss| == 0 then "" else Lcp(ss)
  }

  /** The source's loop: shorten the first string until every other string starts with it. */
  method FindCommonPrefix(ss: seq<string>) returns (prefix: string)
    ensures prefix == CommonPrefix(ss)
  {
    if |ss| == 0 {
      return "";
    }
    if |ss| == 1 {
      return ss[0];
    }
    prefix := ss[0];
    var i := 1;
    while i < |ss|
      invariant 1 <= i <= |ss|
      invariant CommonTo(prefix, ss[..i])
      invariant Longest(prefix, ss[..i])
    {
      LongestMore(prefix, ss[..i], ss[..i + 1]);
      assert ss[..i + 1][..i] == ss[..i];
      prefix := Shorten(prefix, ss[..i + 1]);
      if prefix == "" {
        assert CommonTo("", ss);
        LongestMore(prefix, ss[..i + 1], ss);
        Unique(prefix, CommonPrefix(ss), ss);
        return "";
      }
      i := i + 1;
    }
    assert ss[..i] == ss;
    Unique(prefix, CommonPrefix(ss), ss);
  }

  /** The inner loop: drop the last character until the last list member starts with what is
      left, or nothing is left. */
  method Shorten(prefix: string, ss: seq<string>) returns (p: string)
    requires |ss| >= 1 && CommonTo(prefix, ss[..|ss| - 1]) && Longest(prefix, ss)
    ensures |p| <= |prefix| && Longest(p, ss)
    ensures p == "" || CommonTo(p, ss)
    ensures p != "" && prefix <= ss[|ss| - 1] ==> p == prefix
  {
    p := prefix;
    while !(p <= ss[|ss| - 1])
      invariant |p| <= |prefix| && CommonTo(p, ss[..|ss| - 1]) && Longest(p, ss)
      invariant prefix <= ss[|ss| - 1] ==> p == prefix
      decreases |p|
    {
      ShortenLongest(p, ss);
      p := p[..|p| - 1];
      if p == "" {
        return;
      }
    }
    CommonToLast(p, ss);
  }

  /** A common prefix of all but the last member that the last one also starts with. */
  lemma CommonToLast(p: string, ss: seq<string>)
    requires |ss| >= 1 && CommonTo(p, ss[..|ss| - 1]) && p <= ss[|ss| - 1]
    ensures CommonTo(p, ss)
  {
    forall k | 0 <= k < |ss|
      ensures p <= ss[k]
    {
      if k < |ss| - 1 {
        assert ss[k] == ss[..|ss| - 1][k];
      }
    }
  }

  /** A bound that some list member does not start with can lose its last character. */
  lemma ShortenLongest(prefix: string, ss: seq<string>)
    requires |ss| >= 1 && !(prefix <= ss[|ss| - 1])
    requires Longest(prefix, ss)
    ensures |prefix| > 0 && Longest(prefix[..|prefix| - 1], ss)
  {
    assert prefix != [];
    forall p | CommonTo(p, ss)
      ensures p <= prefix[..|prefix| - 1]
    {
      assert p <= ss[|ss| - 1];
    }
  }

  /** Two longest common prefixes are equal. */
  lemma Unique(a: string, b: string, ss: seq<string>)
    requires CommonTo(a, ss) && CommonTo(b, ss)
    requires Longest(a, ss) && Longest(b, ss)
    ensures a == b
  {
    assert a <= b && b <= a;
  }

  // ---------------------------------------------------------------------------
  // deleteWord (Ctrl+W)

  /** `/[\s/.\-_]/`: whitespace and the path and word punctuation. */
  predicate IsDelimiter(c: char) {
    IsSpace(c) || c == '/' || c == '.' || c == '-' || c == '_'
  }

  /** The length left after dropping the longest trailing run of characters whose delimiter-ness
      is `delim`. */
  function KeepBefore(s: string, delim: bool): (n: nat)
    ensures n <= |s|
    ensures forall k :: n <= k < |s| ==> IsDelimiter(s[k]) == delim
    ensures n == 0 || IsDelimiter(s[n - 1]) != delim
  {
    if |s| == 0 || IsDelimiter(s[|s| - 1]) != delim then |s| else KeepBefore(s[..|s| - 1], delim)
  }

  /** The slice `s.slice(0, n)` / `s.slice(n)` bound. */
  function Clamp(n: nat, s: string): (r: nat)
    ensures r <= |s| && (n <= |s| ==> r == n)
  {
    if n <= |s| then n else |s|
  }

  /** `deleteWord`: the text before the cursor loses its trailing delimiters and then the word
      before them; the text after the cursor is kept and the cursor lands at the cut. */
  method DeleteWord(f: Field) returns (r: Field)
    ensures var c := Clamp(f.cursor, f.value);
      var before := f.value[..c];
      var kept := before[..KeepBefore(before[..KeepBefore(before, true)], false)];
      c == 0 ==> r == f
    ensures var c := Clamp(f.cursor, f.value);
      var before := f.value[..c];
      var kept := before[..KeepBefore(before[..KeepBefore(before, true)], false)];
      c > 0 ==> r.value == kept + f.value[c..] && r.cursor == |kept|
  {
    var c := Clamp(f.cursor, f.value);
    var before := f.value[..c];
    var after := f.value[c..];
    if |before| == 0 {
      return f;
    }
    var j := ScanBack(before, true);
    var n := ScanBack(before[..j], false);
    var kept := before[..n];
    r := Field(kept + after, |kept|);
  }

  /** One backward scan of `deleteWord`: step left while the character's delimiter-ness is
      `delim`; the result is where the scan stopped. */
  method ScanBack(s: string, delim: bool) returns (n: nat)
    ensures n == KeepBefore(s, delim)
  {
    var i := |s| - 1;
    while i >= 0 && IsDelimiter(s[i]) == delim
      invariant -1 <= i < |s|
      invariant KeepBefore(s, delim) == KeepBefore(s[..i + 1], delim)
    {
      assert s[..i + 1][..i] == s[..i];
      i := i - 1;
    }
    n := i + 1;
  }

  /** Deleting a word never touches the text after the cursor and only shortens the text before. */
  lemma DeleteWordShape(f: Field, kept: nat)
    requires kept == KeepBefore(f.value[..Clamp(f.cursor, f.value)][..KeepBefore(f.value[..Clamp(f.cursor, f.value)], true)], false)
    ensures kept <= Clamp(f.cursor, f.value)
    ensures forall k :: 0 <= k < kept ==> f.value[k] == f.value[..Clamp(f.cursor, f.value)][k]
  {
  }

  // ---------------------------------------------------------------------------
  // Tab completion

  /** Replace the last space-separated word of `before` with `word`. */
  function ReplaceLastWord(before: string, word: string): string {
    var parts := Split(before, ' ');
    Join(parts[..|parts| - 1] + [word], " ")
  }

  /** The replaced word is exactly the text after the last space. */
  lemma ReplaceLastWordSpec(before: string, word: string)
    ensures ReplaceLastWord(before, word) == before[..LastIndexOf(before, ' ') + 1] + word
  {
    var k := LastIndexOf(before, ' ');
    if k == -1 {
      SplitNoSep(before, ' ');
      assert before[..0] + word == word;
    } else {
      SplitAtLastSpace(before, k);
      var parts := Split(before, ' ');
      assert parts[..|parts| - 1] == Split(before[..k], ' ');
      JoinSplitAppend(before[..k], word);
      assert before[..k + 1] == before[..k] + " ";
    }
  }

  /** Joining the pieces of a text and one more word with spaces puts a space between them. */
  lemma JoinSplitAppend(a: string, word: string)
    ensures Join(Split(a, ' ') + [word], " ") == a + " " + word
  {
    JoinAppend(Split(a, ' '), word, " ");
    assert [' '] == " ";
  }

  /** Each suggestion put in place of the last word, the text after the cursor kept. */
  lemma ReplaceEach(before: string, words: seq<string>, after: string)
    ensures forall k :: 0 <= k < |words| ==>
      ReplaceLastWord(before, words[k]) + after == before[..LastIndexOf(before, ' ') + 1] + words[k] + after
  {
    forall k | 0 <= k < |words|
      ensures ReplaceLastWord(before, words[k]) + after == before[..LastIndexOf(before, ' ') + 1] + words[k] + after
    {
      ReplaceLastWordSpec(before, words[k]);
    }
  }

  /** Split at the last space: the pieces of what precedes it, then the text after it. */
  lemma SplitAtLastSpace(s: string, k: nat)
    requires k < |s| && s[k] == ' ' && ' ' !in s[k + 1..]
    ensures Split(s, ' ') == Split(s[..k], ' ') + [s[k + 1..]]
  {
    Around(s, k);
    SplitConcatSep(s[..k], s[k + 1..], ' ');
    SplitNoSep(s[k + 1..], ' ');
  }

  /** The completion state kept between Tab presses. */
  datatype Completion = Completion(lastSuggestions: seq<string>, suggestionIndex: nat)

  /** What the completion callback answered. */
  datatype Answer = Answer(suggestions: seq<string>, replacement: string)

  /** `selectionStart || input.length`: a cursor at 0 counts as the end of the input. */
  function CursorOf(f: Field): (c: nat)
    ensures c <= |f.value|
    ensures f.cursor == 0 ==> c == |f.value|
  {
    if f.cursor == 0 then |f.value| else Clamp(f.cursor, f.value)
  }

  /** One suggestion: it replaces the word before the cursor, and the cursor follows it. */
  function CompleteOne(f: Field, word: string): (r: Field)
    ensures var c := CursorOf(f);
      var completed := f.value[..LastIndexOf(f.value[..c], ' ') + 1] + word;
      r == Field(completed + f.value[c..], |completed|)
  {
    var c := CursorOf(f);
    var before := f.value[..c];
    var completed := ReplaceLastWord(before, word);
    ReplaceLastWordSpec(before, word);
    assert before[..LastIndexOf(before, ' ') + 1] == f.value[..LastIndexOf(before, ' ') + 1];
    Field(completed + f.value[c..], |completed|)
  }

  /** Several suggestions: each is stored as the whole line with the word before the cursor
      replaced, and the common prefix (when longer than what was typed) or else the first
      line is shown. */
  function CompleteMany(f: Field, answer: Answer): (r: (Field, Completion))
    requires |answer.suggestions| > 1
    ensures var c := CursorOf(f);
      var stem := f.value[..LastIndexOf(f.value[..c], ' ') + 1];
      && |r.1.lastSuggestions| == |answer.suggestions| && r.1.suggestionIndex == 0
      && (forall k :: 0 <= k < |answer.suggestions| ==>
            r.1.lastSuggestions[k] == stem + answer.suggestions[k] + f.value[c..])
  {
    var c := CursorOf(f);
    var before := f.value[..c];
    var after := f.value[c..];
    assert before[..LastIndexOf(before, ' ') + 1] == f.value[..LastIndexOf(before, ' ') + 1];
    var options := seq(|answer.suggestions|, k requires 0 <= k < |answer.suggestions| =>
      ReplaceLastWord(before, answer.suggestions[k]) + after);
    ReplaceEach(before, answer.suggestions, after);
    var common := CommonPrefix(answer.suggestions);
    if common != "" && |common| > |answer.replacement| then
      var completed := ReplaceLastWord(before, common);
      (Field(completed + after, |completed|), Completion(options, 0))
    else
      (Field(options[0], |options[0]| - |after|), Completion(options, 0))
  }

  /** `handleAutocomplete`: with more than one stored suggestion, Tab shows the next one;
      otherwise the callback's answer is applied. `callback` is None when no callback is set. */
  function Tab(f: Field, st: Completion, callback: Option<Answer>): (r: (Field, Completion))
    ensures callback.None? ==> r == (f, st)
    ensures callback.Some? && |st.lastSuggestions| > 1 ==>
      var i := (st.suggestionIndex + 1) % |st.lastSuggestions|;
      r.1.suggestionIndex == i && r.1.lastSuggestions == st.lastSuggestions
      && r.0.value == st.lastSuggestions[i]
    ensures callback.Some? && |st.lastSuggestions| <= 1 && |callback.value.suggestions| == 1 ==>
      var c := CursorOf(f);
      var completed := f.value[..LastIndexOf(f.value[..c], ' ') + 1] + callback.value.suggestions[0];
      r.0 == Field(completed + f.value[c..], |completed|) && r.1 == st
    ensures callback.Some? && |st.lastSuggestions| <= 1 && |callback.value.suggestions| > 1 ==>
      var c := CursorOf(f);
      var stem := f.value[..LastIndexOf(f.value[..c], ' ') + 1];
      && |r.1.lastSuggestions| == |callback.value.suggestions| && r.1.suggestionIndex == 0
      && (forall k :: 0 <= k < |callback.value.suggestions| ==>
            r.1.lastSuggestions[k] == stem + callback.value.suggestions[k] + f.value[c..])
    ensures callback.Some? && |st.lastSuggestions| <= 1 && |callback.value.suggestions| == 0 ==> r == (f, st)
  {
    match callback
    case None => (f, st)
    case Some(answer) =>
      if |st.lastSuggestions| > 1 then
        var i := (st.suggestionIndex + 1) % |st.lastSuggestions|;
        (Assign(f, st.lastSuggestions[i]), Completion(st.lastSuggestions, i))
      else if |answer.suggestions| == 1 then (CompleteOne(f, answer.suggestions[0]), st)
      else if |answer.suggestions| > 1 then CompleteMany(f, answer)
      else (f, st)
  }

  /** Repeated Tab presses walk the stored suggestions cyclically. */
  lemma {:induction false} TabCycles(f: Field, st: Completion, answer: Answer, k: nat)
    requires |st.lastSuggestions| > 1
    ensures var r := TabTimes(f, st, answer, k);
      r.1.lastSuggestions == st.lastSuggestions
      && r.1.suggestionIndex == if k == 0 then st.suggestionIndex else (st.suggestionIndex + k) % |st.lastSuggestions|
    decreases k
  {
    if k > 1 {
      TabCycles(f, st, answer, k - 1);
      ModStep(st.suggestionIndex + k - 1, |st.lastSuggestions|);
    }
  }

  /** A cycling Tab press shows the next stored line with the caret at its end, or leaves the
      field as it was when that line is already shown. */
  lemma TabCycleCaret(f: Field, st: Completion, answer: Answer)
    requires |st.lastSuggestions| > 1
    ensures var next := st.lastSuggestions[(st.suggestionIndex + 1) % |st.lastSuggestions|];
      var g := Tab(f, st, Some(answer)).0;
      && g.value == next
      && (next != f.value ==> g.cursor == |next| && CursorOf(g) == |next|)
      && (next == f.value ==> g == f)
  {
  }

  lemma ModStep(a: nat, n: nat)
    requires n > 0
    ensures (a % n + 1) % n == (a + 1) % n
  {
    var q, m := a / n, a % n;
    if m + 1 < n {
      ModUnique(a + 1, n, q, m + 1);
      ModUnique(m + 1, n, 0, m + 1);
    } else {
      ModUnique(a + 1, n, q + 1, 0);
      ModUnique(m + 1, n, 1, 0);
    }
  }

  /** The remainder is determined by any quotient/remainder decomposition. */
  lemma ModUnique(x: int, n: int, q: int, r: int)
    requires n > 0 && x == q * n + r && 0 <= r < n
    ensures x % n == r
  {
    var d := q - x / n;
    assert d * n == q * n - (x / n) * n;
    assert d * n == x % n - r;
  }

  function TabTimes(f: Field, st: Completion, answer: Answer, k: nat): (Field, Completion)
    decreases k
  {
    if k == 0 then (f, st)
    else
      var (f1, st1) := TabTimes(f, st, answer, k - 1);
      Tab(f1, st1, Some(answer))
  }
}
