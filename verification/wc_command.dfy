/**
 * The `wc` command: line, word and byte counts of stdin or of each named file,
 * in right-aligned columns chosen by the -l, -w and -c flags, with a total row
 * when more than one file is counted.
 */
module WcCommand {
  import opened Wrappers
  import opened Strings
  import opened Filesystem
  import opened Parser
  import opened Shell
  import opened FileCommands

  datatype Counts = Counts(lines: nat, words: nat, bytes: nat)

  // ---------------------------------------------------------------------------
  // Reference counts

  /** How many times `c` occurs in `s`. */
  function Occurrences(s: string, c: char): nat {
    if |s| == 0 then 0 else (if s[0] == c then 1 else 0) + Occurrences(s[1..], c)
  }

  /** The number of maximal runs of non-whitespace characters; `inWord` says whether the
      character before `s` ended such a run. */
  function RunsFrom(s: string, inWord: bool): nat {
    if |s| == 0 then 0
    else if IsSpace(s[0]) then RunsFrom(s[1..], false)
    else (if inWord then 0 else 1) + RunsFrom(s[1..], true)
  }

  function Runs(s: string): nat {
    RunsFrom(s, false)
  }

  // ---------------------------------------------------------------------------
  // countText as written

  /** The length of the leading run of non-whitespace characters. */
  function WordLength(s: string): (n: nat)
    ensures n <= |s|
    ensures forall i :: 0 <= i < n ==> !IsSpace(s[i])
    ensures n < |s| ==> IsSpace(s[n])
  {
    if |s| == 0 || IsSpace(s[0]) then 0 else 1 + WordLength(s[1..])
  }

  /** `s.split(/\s+/)`: the pieces between maximal runs of whitespace. */
  function SplitSpace(s: string): (r: seq<string>)
    ensures |r| >= 1
    decreases |s|
  {
    var n := WordLength(s);
    if n == |s| then [s]
    else [s[..n]] + SplitSpace(TrimStart(s[n..]))
  }

  /** `countText`: `split('\n').length` less one for a trailing newline, the pieces of the
      trimmed text split at whitespace (none for blank text), and the UTF-8 length. */
  function CountText(text: string): (r: Counts)
    ensures r.lines == Occurrences(text, '\n') + (if EndsWith(text, "\n") then 0 else 1)
    ensures r.words == Runs(text)
    ensures r.bytes == Utf8Length(text)
  {
    SplitLength(text, '\n');
    WordsAreRuns(text);
    var lines := |Split(text, '\n')| - (if EndsWith(text, "\n") then 1 else 0);
    var t := Trim(text);
    var words := if t != "" then |SplitSpace(t)| else 0;
    Counts(lines, words, Utf8Length(text))
  }

  lemma {:induction false} SplitLength(s: string, c: char)
    ensures |Split(s, c)| == Occurrences(s, c) + 1
    decreases |s|
  {
    if |s| > 0 {
      SplitLength(s[1..], c);
    }
  }

  /** A non-empty word contributes one run when it starts a new one. */
  lemma {:induction false} RunsOfWord(w: string, rest: string, inWord: bool)
    requires |w| > 0 && forall i :: 0 <= i < |w| ==> !IsSpace(w[i])
    ensures RunsFrom(w + rest, inWord) == (if inWord then 0 else 1) + RunsFrom(rest, true)
    decreases |w|
  {
    assert (w + rest)[0] == w[0] && (w + rest)[1..] == w[1..] + rest;
    if |w| > 1 {
      RunsOfWord(w[1..], rest, true);
    } else {
      assert w[1..] + rest == rest;
    }
  }

  /** Leading whitespace ends any run and contributes none. */
  lemma {:induction false} RunsAfterSpaces(s: string, inWord: bool)
    requires |s| > 0 && IsSpace(s[0])
    ensures RunsFrom(s, inWord) == RunsFrom(TrimStart(s), false)
    decreases |s|
  {
    if |s[1..]| > 0 && IsSpace(s[1]) {
      RunsAfterSpaces(s[1..], false);
    }
  }

  lemma RunsOfTrimStart(s: string)
    ensures RunsFrom(s, false) == RunsFrom(TrimStart(s), false)
  {
    if |s| > 0 && IsSpace(s[0]) {
      RunsAfterSpaces(s, false);
    }
  }

  /** Trailing whitespace contributes no run. */
  lemma {:induction false} RunsOfSpaces(t: string, inWord: bool)
    requires forall i :: 0 <= i < |t| ==> IsSpace(t[i])
    ensures RunsFrom(t, inWord) == 0
    decreases |t|
  {
    if |t| > 0 {
      RunsOfSpaces(t[1..], false);
    }
  }

  lemma {:induction false} RunsBeforeSpaces(a: string, t: string, inWord: bool)
    requires forall i :: 0 <= i < |t| ==> IsSpace(t[i])
    ensures RunsFrom(a + t, inWord) == RunsFrom(a, inWord)
    decreases |a|
  {
    if |a| == 0 {
      assert a + t == t;
      RunsOfSpaces(t, inWord);
    } else {
      assert (a + t)[0] == a[0] && (a + t)[1..] == a[1..] + t;
      RunsBeforeSpaces(a[1..], t, !IsSpace(a[0]));
    }
  }

  lemma RunsOfTrimEnd(u: string)
    ensures RunsFrom(TrimEnd(u), false) == RunsFrom(u, false)
  {
    var r := TrimEnd(u);
    assert u == r + u[|r|..];
    RunsBeforeSpaces(r, u[|r|..], false);
  }

  lemma RunsOfTrim(s: string)
    ensures Runs(Trim(s)) == Runs(s)
  {
    RunsOfTrimStart(s);
    RunsOfTrimEnd(TrimStart(s));
  }

  /** Trimming the front of text that ends in non-whitespace keeps its last character. */
  lemma TrimStartKeepsLast(t: string)
    requires |t| > 0 && !IsSpace(t[|t| - 1])
    ensures |TrimStart(t)| > 0 && TrimStart(t)[|TrimStart(t)| - 1] == t[|t| - 1]
  {
    var r := TrimStart(t);
    assert r == t[|t| - |r|..];
  }

  /** Splitting text that starts and ends with non-whitespace gives one piece per run. */
  lemma {:induction false} SplitSpaceCountsRuns(s: string)
    requires |s| > 0 && !IsSpace(s[0]) && !IsSpace(s[|s| - 1])
    ensures |SplitSpace(s)| == Runs(s)
    decreases |s|
  {
    var n := WordLength(s);
    var w, t := s[..n], s[n..];
    assert s == w + t;
    RunsOfWord(w, t, false);
    if n < |s| {
      var rest := TrimStart(t);
      RunsAfterSpaces(t, true);
      assert t[|t| - 1] == s[|s| - 1];
      TrimStartKeepsLast(t);
      SplitSpaceCountsRuns(rest);
      assert SplitSpace(s) == [w] + SplitSpace(rest);
    } else {
      assert t == "";
    }
  }

  /** The words countText reports are the maximal runs of non-whitespace. */
  lemma WordsAreRuns(text: string)
    ensures (if Trim(text) != "" then |SplitSpace(Trim(text))| else 0) == Runs(text)
  {
    var t := Trim(text);
    RunsOfTrim(text);
    if t != "" {
      var u := TrimStart(text);
      assert t == u[..|t|];
      assert t[0] == u[0];
      SplitSpaceCountsRuns(t);
    } else {
      assert Runs(t) == 0;
    }
  }

  // ---------------------------------------------------------------------------
  // Columns and rows

  /** Which counts are printed: a column shows when its own flag is set or neither of the
      other two is. */
  datatype Columns = Columns(lines: bool, words: bool, bytes: bool)

  function ColumnsOf(flags: map<string, FlagValue>): (r: Columns)
    ensures var l, w, c := Truthy(flags, "l"), Truthy(flags, "w"), Truthy(flags, "c");
      && (r.lines <==> l || (!w && !c))
      && (r.words <==> w || (!l && !c))
      && (r.bytes <==> c || (!l && !w))
    ensures r.lines || r.words || r.bytes
  {
    var l, w, c := Truthy(flags, "l"), Truthy(flags, "w"), Truthy(flags, "c");
    Columns(l || (!w && !c), w || (!l && !c), c || (!l && !w))
  }

  function Cell(n: nat): string {
    PadStart(NatToString(n), 8)
  }

  /** The chosen counts, each right-aligned to width 8. */
  function Row(c: Counts, cols: Columns): string {
    (if cols.lines then Cell(c.lines) else "")
    + (if cols.words then Cell(c.words) else "")
    + (if cols.bytes then Cell(c.bytes) else "")
  }

  /** The sums of the counted files' columns. */
  function Total(cs: seq<Counts>): Counts {
    if |cs| == 0 then Counts(0, 0, 0)
    else
      var t := Total(cs[1..]);
      Counts(cs[0].lines + t.lines, cs[0].words + t.words, cs[0].bytes + t.bytes)
  }

  // ---------------------------------------------------------------------------
  // wcCommand.execute

  /** The first loop over the operands, as given and as looked up: every one must name a
      file; the first that does not ends the command with its message. */
  function Gather(names: seq<string>, looks: seq<Lookup>): Result<seq<Counts>>
    requires |names| == |looks|
    decreases |names|
  {
    if |names| == 0 then Ok([])
    else if looks[0] == Missing then Err("wc: " + names[0] + ": No such file or directory\n")
    else if looks[0] == Directory then Err("wc: " + names[0] + ": Is a directory\n")
    else
      match Gather(names[1..], looks[1..])
      case Err(m) => Err(m)
      case Ok(cs) => Ok([CountText(looks[0].content)] + cs)
  }

  /** The contents of looked-up files, in order ("" for anything else). */
  function Contents(looks: seq<Lookup>): (r: seq<string>)
    ensures |r| == |looks| && forall i :: 0 <= i < |looks| ==> r[i] == if looks[i].Text? then looks[i].content else ""
  {
    seq(|looks|, i requires 0 <= i < |looks| => if looks[i].Text? then looks[i].content else "")
  }

  /** Each text's counts, in order. */
  function CountAll(texts: seq<string>): (r: seq<Counts>)
    ensures |r| == |texts| && forall i :: 0 <= i < |texts| ==> r[i] == CountText(texts[i])
  {
    if |texts| == 0 then [] else [CountText(texts[0])] + CountAll(texts[1..])
  }

  /** Gathering succeeds exactly when every operand is a file, and then holds each file's
      counts in order. */
  lemma GatherSpec(names: seq<string>, looks: seq<Lookup>)
    requires |names| == |looks|
    ensures Gather(names, looks).Ok? <==> forall i :: 0 <= i < |looks| ==> looks[i].Text?
    ensures Gather(names, looks).Ok? ==> Gather(names, looks).value == CountAll(Contents(looks))
  {
    GatherOk(names, looks);
    GatherValue(names, looks);
  }

  /** Gathering succeeds exactly when every operand is a file. */
  lemma {:induction false} GatherOk(names: seq<string>, looks: seq<Lookup>)
    requires |names| == |looks|
    ensures Gather(names, looks).Ok? <==> forall i :: 0 <= i < |looks| ==> looks[i].Text?
    decreases |names|
  {
    if |names| > 0 {
      var n1, l1 := names[1..], looks[1..];
      assert |n1| == |l1| < |names|;
      GatherOk(n1, l1);
      assert forall i :: 1 <= i < |looks| ==> looks[i] == l1[i - 1];
    }
  }

  /** A successful gathering holds each file's counts, in order. */
  lemma {:induction false} GatherValue(names: seq<string>, looks: seq<Lookup>)
    requires |names| == |looks|
    ensures Gather(names, looks).Ok? ==> Gather(names, looks).value == CountAll(Contents(looks))
    decreases |names|
  {
    if |names| > 0 {
      var n1, l1 := names[1..], looks[1..];
      assert |n1| == |l1| < |names|;
      if Gather(names, looks).Ok? {
        GatherValue(n1, l1);
        var c := Contents(looks);
        ContentsTail(looks);
        assert CountAll(c) == [CountText(c[0])] + CountAll(c[1..]);
      }
    }
  }

  lemma ContentsTail(looks: seq<Lookup>)
    requires |looks| > 0
    ensures Contents(looks)[1..] == Contents(looks[1..])
  {
  }

  /** A failing run prints only the message for the first operand that is not a file. */
  lemma {:induction false} GatherFirstFailure(names: seq<string>, looks: seq<Lookup>, k: nat)
    requires |names| == |looks| && k < |names| && !looks[k].Text?
    requires forall i :: 0 <= i < k ==> looks[i].Text?
    ensures Gather(names, looks) == Err(if looks[k] == Directory
                                        then "wc: " + names[k] + ": Is a directory\n"
                                        else "wc: " + names[k] + ": No such file or directory\n")
    decreases k
  {
    if k > 0 {
      var n1, l1 := names[1..], looks[1..];
      assert |n1| == |l1| && k - 1 < |n1| && l1[k - 1] == looks[k] && n1[k - 1] == names[k];
      forall i | 0 <= i < k - 1
        ensures l1[i].Text?
      {
        assert l1[i] == looks[i + 1];
      }
      GatherFirstFailure(n1, l1, k - 1);
    }
  }

  /** One row per file, its name after the counts, then a total row when there are several. */
  function Report(cs: seq<Counts>, names: seq<string>, cols: Columns): seq<string>
    requires |cs| == |names|
  {
    seq(|cs|, i requires 0 <= i < |cs| => Row(cs[i], cols) + " " + names[i])
    + (if |cs| > 1 then [Row(Total(cs), cols) + " total"] else [])
  }

  /** `wcCommand.execute`: stdin's counts with no operands; otherwise, when every operand is a
      file, one row per file with its counts and name and a total row for several files. */
  function Wc(inv: Invocation): (r: Outcome)
    ensures r.fs == inv.fs && r.env == inv.env && r.aliases == inv.extras.aliases && r.output == ""
    ensures r.exitCode == 0 || r.exitCode == 1
    ensures var looks := Looks(inv, inv.args);
      r.exitCode == 0 <==> forall i :: 0 <= i < |looks| ==> looks[i].Text?
    ensures |inv.args| == 0 ==> r.stdout == Row(CountText(inv.stdin), ColumnsOf(inv.flags)) + "\n"
    ensures |inv.args| > 0 && r.exitCode == 0 ==>
      r.stdout == Lines(Report(CountAll(Contents(Looks(inv, inv.args))), inv.args, ColumnsOf(inv.flags)))
  {
    var cols := ColumnsOf(inv.flags);
    var looks := Looks(inv, inv.args);
    GatherSpec(inv.args, looks);
    if |inv.args| == 0 then Finish(inv, 0, Row(CountText(inv.stdin), cols) + "\n")
    else
      match Gather(inv.args, looks)
      case Err(m) => Finish(inv, 1, m)
      case Ok(cs) => Finish(inv, 0, Lines(Report(cs, inv.args, cols)))
  }

  /** A run succeeds exactly when every operand names a file, and then counts what
      `readFile` returns for each. */
  lemma WcReadsFiles(inv: Invocation, i: nat)
    requires i < |inv.args|
    ensures Looks(inv, inv.args)[i].Text? <==> IsFile(inv.fs, Abs(inv, inv.args[i]))
    ensures IsFile(inv.fs, Abs(inv, inv.args[i])) ==>
      Ok(Contents(Looks(inv, inv.args))[i]) == ReadFile(inv.fs, Abs(inv, inv.args[i]))
  {
  }

  /** A failing run prints the message for the first operand that is not a file, and none of
      the rows of the files before it. */
  lemma WcFirstFailure(inv: Invocation, k: nat)
    requires k < |inv.args|
    requires var looks := Looks(inv, inv.args);
      !looks[k].Text? && forall i :: 0 <= i < k ==> looks[i].Text?
    ensures Wc(inv).exitCode == 1
    ensures Wc(inv).stdout == if IsDirectory(inv.fs, Abs(inv, inv.args[k]))
                              then "wc: " + inv.args[k] + ": Is a directory\n"
                              else "wc: " + inv.args[k] + ": No such file or directory\n"
  {
    GatherFirstFailure(inv.args, Looks(inv, inv.args), k);
    FileOrDirectory(inv.fs, Abs(inv, inv.args[k]));
  }

  /** The total row sums each column over the files. */
  lemma {:induction false} TotalSplits(a: seq<Counts>, b: seq<Counts>)
    ensures Total(a + b) == Counts(Total(a).lines + Total(b).lines, Total(a).words + Total(b).words,
                                   Total(a).bytes + Total(b).bytes)
    decreases |a|
  {
    if |a| == 0 {
      assert a + b == b;
    } else {
      assert (a + b)[1..] == a[1..] + b;
      TotalSplits(a[1..], b);
    }
  }

  /** Counting a concatenation at a line break adds the line counts. */
  lemma {:induction false} OccurrencesConcat(a: string, b: string, c: char)
    ensures Occurrences(a + b, c) == Occurrences(a, c) + Occurrences(b, c)
    decreases |a|
  {
    if |a| == 0 {
      assert a + b == b;
    } else {
      assert (a + b)[1..] == a[1..] + b;
      OccurrencesConcat(a[1..], b, c);
    }
  }

  /** Appending a terminated line to terminated text adds exactly one line. */
  lemma LinesOfAppendedLine(text: string, line: string)
    requires '\n' !in line
    requires text == "" || EndsWith(text, "\n")
    ensures CountText(text + line + "\n").lines == CountText(text).lines + 1
              - (if text == "" then 1 else 0)
  {
    OccurrencesConcat(text, line + "\n", '\n');
    OccurrencesConcat(line, "\n", '\n');
    NoOccurrences(line, '\n');
    assert Occurrences("\n", '\n') == 1;
    var s := text + line + "\n";
    assert s == text + (line + "\n");
    assert EndsWith(s, "\n");
  }

  lemma {:induction false} NoOccurrences(s: string, c: char)
    requires c !in s
    ensures Occurrences(s, c) == 0
    decreases |s|
  {
    if |s| > 0 {
      NoOccurrences(s[1..], c);
    }
  }
}
