/**
 * The `find` command: a pre-order walk of the directory tree below a search
 * path, printing each entry's path relative to the search path, optionally
 * filtered by a glob on the entry's last name.
 *
 * The walk is written over the tree nodes; `EntryLocates` shows that the path
 * the command builds for each entry names exactly that entry's node, so the
 * node walk visits what the path-by-path lookups of the command would.
 */
module FindCommand {
  import opened Wrappers
  import opened Strings
  import opened FileTree
  import opened Filesystem
  import opened PathResolver
  import opened Parser
  import opened Shell

  // ---------------------------------------------------------------------------
  // Display paths

  /** `currentPath === basePath ? '.' : currentPath.slice(basePath.length + 1)`. */
  function Display(base: string, current: string): string {
    if current == base then "."
    else if |base| + 1 <= |current| then current[|base| + 1..]
    else ""
  }

  /** `display.split('/').pop() || ''`: the text after the last '/'. */
  function LastPiece(display: string): (r: string)
    ensures '/' !in r
  {
    var parts := Split(display, '/');
    parts[|parts| - 1]
  }

  /** The path of entry `e` of the directory at `current`. */
  function EntryPath(current: string, e: string): string {
    if current == "/" then "/" + e else current + "/" + e
  }

  /** The display of entry `e` of the directory displayed as `display`. */
  function EntryDisplay(display: string, e: string): string {
    if display == "." then e else display + "/" + e
  }

  /** The `-name` test: the anchored regular expression the glob becomes; no pattern keeps all. */
  predicate NameMatches(pattern: Option<string>, name: string) {
    pattern.None? || RegexMatch(GlobRegex(pattern.value), name)
  }

  /** Whether a printed line survives the `-name` test on its last piece. */
  predicate Shown(pattern: Option<string>, line: string) {
    NameMatches(pattern, LastPiece(line))
  }

  // ---------------------------------------------------------------------------
  // searchDirectory

  /**
   * `searchDirectory(base, current, pattern)` for the node `current` names: nothing for a
   * file; for a directory its own display (when it matches), then its entries in order,
   * a directory entry searched in turn and a file entry printed when it matches.
   */
  function Search(base: string, current: string, node: Node, pattern: Option<string>): seq<string>
    decreases node, 1, 0
  {
    match node
    case File(_, _, _) => []
    case Dir(_, _, _) =>
      var display := Display(base, current);
      (if NameMatches(pattern, LastPiece(display)) then [display] else [])
      + SearchEntries(base, current, display, node, 0, pattern)
  }

  /** The loop over the entries of `dir` from the i-th on. */
  function SearchEntries(base: string, current: string, display: string, dir: Node, i: nat, pattern: Option<string>): seq<string>
    requires dir.Dir? && i <= |dir.children|
    decreases dir, 0, |dir.children| - i
  {
    if i == |dir.children| then []
    else
      var e := dir.children[i].key;
      var child := dir.children[i].node;
      assert dir.children[i] in dir.children;
      (if child.Dir? then Search(base, EntryPath(current, e), child, pattern)
       else if NameMatches(pattern, e) then [EntryDisplay(display, e)]
       else [])
      + SearchEntries(base, current, display, dir, i + 1, pattern)
  }

  /** The number of nodes in a subtree, the node itself included. */
  function Size(node: Node): nat
    decreases node, 1, 0
  {
    match node
    case File(_, _, _) => 1
    case Dir(_, _, _) => 1 + SizeFrom(node, 0)
  }

  function SizeFrom(dir: Node, i: nat): nat
    requires dir.Dir? && i <= |dir.children|
    decreases dir, 0, |dir.children| - i
  {
    if i == |dir.children| then 0
    else
      assert dir.children[i] in dir.children;
      Size(dir.children[i].node) + SizeFrom(dir, i + 1)
  }

  /** Without a pattern every node below a directory is printed exactly once, the directory
      included; a file prints nothing. */
  lemma {:induction false} SearchCountsAll(base: string, current: string, node: Node)
    ensures |Search(base, current, node, None)| == if node.Dir? then Size(node) else 0
    decreases node, 1, 0
  {
    if node.Dir? {
      SearchEntriesCountAll(base, current, Display(base, current), node, 0);
    }
  }

  lemma {:induction false} SearchEntriesCountAll(base: string, current: string, display: string, dir: Node, i: nat)
    requires dir.Dir? && i <= |dir.children|
    ensures |SearchEntries(base, current, display, dir, i, None)| == SizeFrom(dir, i)
    decreases dir, 0, |dir.children| - i
  {
    if i < |dir.children| {
      var e := dir.children[i].key;
      var child := dir.children[i].node;
      assert dir.children[i] in dir.children;
      SearchCountsAll(base, EntryPath(current, e), child);
      SearchEntriesCountAll(base, current, display, dir, i + 1);
    }
  }

  // ---------------------------------------------------------------------------
  // The -name filter

  /** Every entry name in the subtree is free of '/', as names made from normalised paths are. */
  predicate SlashFreeNames(node: Node)
    decreases node
  {
    match node
    case File(_, _, _) => true
    case Dir(_, ch, _) => forall i :: 0 <= i < |ch| ==> '/' !in ch[i].key && SlashFreeNames(ch[i].node)
  }

  lemma {:induction false} FilterConcat<T>(a: seq<T>, b: seq<T>, keep: T -> bool)
    ensures Filter(a + b, keep) == Filter(a, keep) + Filter(b, keep)
    decreases |a|
  {
    if |a| > 0 {
      assert (a + b)[1..] == a[1..] + b;
      FilterConcat(a[1..], b, keep);
    } else {
      assert a + b == b;
    }
  }

  /** A file entry's printed path ends in the entry's own name. */
  lemma EntryDisplayLast(display: string, e: string)
    requires '/' !in e
    ensures LastPiece(EntryDisplay(display, e)) == e
  {
    SplitNoSep(e, '/');
    if display != "." {
      assert display + "/" + e == display + ['/'] + e;
      SplitConcatSep(display, e, '/');
    }
  }

  /**
   * Searching with a pattern prints exactly the lines the unfiltered search prints whose
   * last piece matches, in the same order: the pattern is matched against base names,
   * directories included.
   */
  lemma {:induction false} SearchFilters(base: string, current: string, node: Node, p: Option<string>)
    requires SlashFreeNames(node)
    ensures Search(base, current, node, p) == Filter(Search(base, current, node, None), l => Shown(p, l))
    decreases node, 1, 0
  {
    var keep := l => Shown(p, l);
    if node.Dir? {
      var display := Display(base, current);
      SearchEntriesFilters(base, current, display, node, 0, p);
      FilterConcat([display], SearchEntries(base, current, display, node, 0, None), keep);
    }
  }

  lemma {:induction false} SearchEntriesFilters(base: string, current: string, display: string, dir: Node, i: nat, p: Option<string>)
    requires dir.Dir? && i <= |dir.children| && SlashFreeNames(dir)
    ensures SearchEntries(base, current, display, dir, i, p)
         == Filter(SearchEntries(base, current, display, dir, i, None), l => Shown(p, l))
    decreases dir, 0, |dir.children| - i
  {
    var keep := l => Shown(p, l);
    if i < |dir.children| {
      var e := dir.children[i].key;
      var child := dir.children[i].node;
      assert dir.children[i] in dir.children;
      SearchEntriesFilters(base, current, display, dir, i + 1, p);
      var head := if child.Dir? then Search(base, EntryPath(current, e), child, None) else [EntryDisplay(display, e)];
      FilterConcat(head, SearchEntries(base, current, display, dir, i + 1, None), keep);
      if child.Dir? {
        SearchFilters(base, EntryPath(current, e), child, p);
      } else {
        EntryDisplayLast(display, e);
      }
    }
  }

  // ---------------------------------------------------------------------------
  // From entry paths to child nodes

  /** With distinct names, looking an entry's name up finds that entry. */
  lemma {:induction false} FindChildAt(ch: seq<Child>, i: nat)
    requires UniqueChildKeys(ch) && i < |ch|
    ensures FindChild(ch, ch[i].key) == Some(ch[i].node)
    decreases i
  {
    if i > 0 {
      FindChildAt(ch[1..], i - 1);
    }
  }

  lemma RootEntrySegments(e: string)
    requires CanonicalSegment(e)
    ensures NormalSegs("/" + e) == [e]
  {
    SplitNoSep(e, '/');
    assert DropEmptyAndDot([e]) == [e];
    assert "/" + e == "" + "/" + e;
    NormalSegsOfConcat("", e);
    assert Split("", '/') == [""];
    assert DropEmptyAndDot([""]) == [];
    assert Collapse([], [e]) == [e];
  }

  lemma InnerEntrySegments(current: string, e: string)
    requires CanonicalSegment(e)
    ensures NormalSegs(current + "/" + e) == NormalSegs(current) + [e]
  {
    SplitNoSep(e, '/');
    assert DropEmptyAndDot([e]) == [e];
    NormalSegsOfConcat(current, e);
    assert Collapse(NormalSegs(current), [e]) == NormalSegs(current) + [e];
  }

  lemma SegmentsOfEntryPath(current: string, e: string)
    requires Normalize(current) == current
    requires CanonicalSegment(e)
    ensures NormalSegs(EntryPath(current, e)) == NormalSegs(current) + [e]
  {
    if current == "/" {
      RootEntrySegments(e);
      NormalSegsOfCanonical([]);
    } else {
      InnerEntrySegments(current, e);
    }
  }

  lemma EntryPathNormal(current: string, e: string)
    requires Normalize(current) == current
    requires CanonicalSegment(e)
    ensures Normalize(EntryPath(current, e)) == EntryPath(current, e)
  {
    SegmentsOfEntryPath(current, e);
    var s := NormalSegs(current);
    var q := EntryPath(current, e);
    assert current == "/" + Join(s, "/");
    if current == "/" {
      JoinedSegments(q, [], e);
    } else {
      JoinedSegments(q, s, e);
    }
  }

  lemma JoinedSegments(q: string, s: seq<string>, e: string)
    requires NormalSegs(q) == s + [e]
    ensures Normalize(q) == if s == [] then "/" + e else "/" + Join(s, "/") + "/" + e
  {
    RootedSnoc(s, e);
  }

  lemma RootedSnoc(s: seq<string>, e: string)
    ensures "/" + Join(s + [e], "/") == if s == [] then "/" + e else "/" + Join(s, "/") + "/" + e
  {
    if s == [] {
      assert s + [e] == [e];
    } else {
      JoinAppend(s, e, "/");
    }
  }

  /**
   * The path the command builds for entry `e` of an existing directory is a normalised
   * absolute path that names the directory's child `e`: a directory exactly when that
   * child is one. This is what lets the walk follow nodes instead of looking paths up.
   */
  lemma EntryLocates(fs: FS, current: string, e: string)
    requires |current| >= 1 && current[0] == '/' && Normalize(current) == current
    requires CanonicalSegment(e)
    requires IsDirectory(fs, current)
    ensures Normalize(EntryPath(current, e)) == EntryPath(current, e)
    ensures Locate(fs, EntryPath(current, e)) == FindChild(Locate(fs, current).value.children, e)
  {
    var q := EntryPath(current, e);
    SegmentsOfEntryPath(current, e);
    EntryPathNormal(current, e);
    ResolveOfNormal(fs, current);
    ResolveOfNormal(fs, q);
    LocateWalk(fs, current);
    LocateWalk(fs, q);
    WalkConcat(fs.root, NormalSegs(current), [e]);
  }

  /** In a valid tree the i-th entry's path locates the i-th child. */
  lemma EntryLocatesChild(fs: FS, current: string, i: nat)
    requires |current| >= 1 && current[0] == '/' && Normalize(current) == current
    requires ValidFS(fs) && IsDirectory(fs, current)
    requires i < |Locate(fs, current).value.children|
    requires CanonicalSegment(Locate(fs, current).value.children[i].key)
    ensures Locate(fs, EntryPath(current, Locate(fs, current).value.children[i].key))
         == Some(Locate(fs, current).value.children[i].node)
  {
    var dir := Locate(fs, current).value;
    LocateWalk(fs, current);
    WalkValid(fs.root, Target(fs, current));
    EntryLocates(fs, current, dir.children[i].key);
    FindChildAt(dir.children, i);
  }

  // ---------------------------------------------------------------------------
  // findCommand.execute

  /** `args[0] && !args[0].startsWith('-') ? args[0] : '.'`. */
  function SearchPathArg(args: seq<string>): string {
    if |args| > 0 && args[0] != "" && !StartsWith(args[0], "-") then args[0] else "."
  }

  /** `args.indexOf(x)`: the first position holding x, or -1. */
  function IndexOfArg(args: seq<string>, x: string): (i: int)
    ensures -1 <= i < |args|
    ensures i == -1 <==> x !in args
    ensures i >= 0 ==> args[i] == x && x !in args[..i]
  {
    if |args| == 0 then -1
    else if args[0] == x then 0
    else
      var j := IndexOfArg(args[1..], x);
      assert j >= 0 ==> args[..j + 1] == [args[0]] + args[1..][..j];
      if j == -1 then -1 else j + 1
  }

  /** The `-name` pattern: the argument after the first "-name", when there is a non-empty one. */
  function NamePattern(args: seq<string>): Option<string> {
    var i := IndexOfArg(args, "-name");
    if i >= 0 && i + 1 < |args| && args[i + 1] != "" then Some(args[i + 1]) else None
  }

  /** `findCommand.execute`. */
  function Find(inv: Invocation): (r: Outcome)
    ensures r.fs == inv.fs && r.env == inv.env && r.aliases == inv.extras.aliases && r.output == ""
    ensures r.exitCode == 0 <==> Exists(inv.fs, Abs(inv, SearchPathArg(inv.args)))
    ensures r.exitCode == 0 || r.exitCode == 1
    ensures r.exitCode == 1 ==> r.stdout == "find: " + SearchPathArg(inv.args) + ": No such file or directory\n"
    ensures IsFile(inv.fs, Abs(inv, SearchPathArg(inv.args))) ==> r.exitCode == 0 && r.stdout == ""
  {
    var path := SearchPathArg(inv.args);
    var resolved := Abs(inv, path);
    match Locate(inv.fs, resolved)
    case None => Finish(inv, 1, "find: " + path + ": No such file or directory\n")
    case Some(node) => Finish(inv, 0, Lines(Search(resolved, resolved, node, NamePattern(inv.args))))
  }

  /** Without `-name`, a directory search prints "." first and one line per node below it. */
  lemma FindListsAll(inv: Invocation)
    requires NamePattern(inv.args).None?
    requires IsDirectory(inv.fs, Abs(inv, SearchPathArg(inv.args)))
    ensures var lines := Search(Abs(inv, SearchPathArg(inv.args)), Abs(inv, SearchPathArg(inv.args)),
                                Locate(inv.fs, Abs(inv, SearchPathArg(inv.args))).value, None);
      && Find(inv).stdout == Lines(lines)
      && |lines| == Size(Locate(inv.fs, Abs(inv, SearchPathArg(inv.args))).value)
      && lines[0] == "."
  {
    var a := Abs(inv, SearchPathArg(inv.args));
    SearchCountsAll(a, a, Locate(inv.fs, a).value);
  }

  /** A search from "/" shows a top-level directory without its first character: the slice
      skips one character past the base, and "/" has no separator left to skip. */
  lemma RootDisplayDropsFirst(d: string)
    requires |d| >= 1
    ensures Display("/", "/" + d) == d[1..]
  {
  }

  /** Parsed command lines never hold "-name" as an argument, so a find run from a command
      line applies no pattern and searches the directory its first argument names. */
  lemma ParsedFindHasNoPattern(input: string, k: nat)
    requires k < |Parse(input).commands|
    ensures NamePattern(Parse(input).commands[k].args).None?
  {
    var args := Parse(input).commands[k].args;
    assert ProperCommand(Parse(input).commands[k]);
    forall i | 0 <= i < |args|
      ensures args[i] != "-name"
    {
      assert StartsWith("-name", "-");
    }
  }
}
