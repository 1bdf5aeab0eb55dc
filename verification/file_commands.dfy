/**
 * The built-in commands that work on the virtual filesystem: cd, pwd, ls, cat, mkdir, touch,
 * rm, cp and mv. Each resolves its operands against the invocation's directory, writes its
 * diagnostics to stdout and reports failure with exit code 1.
 */
module FileCommands {
  import opened Wrappers
  import opened Strings
  import opened FileTree
  import opened Filesystem
  import opened PathResolver
  import opened Shell

  // ---------------------------------------------------------------------------
  // What a loop over operands may do to the tree

  /** Every path that existed still exists, as the same kind of node. */
  ghost predicate KeepsAll(fs: FS, fs': FS) {
    forall q :: Exists(fs, q) ==> Exists(fs', q) && IsFile(fs', q) == IsFile(fs, q)
  }

  /** Every file that existed is still there, content and metadata unchanged. */
  ghost predicate KeepsFiles(fs: FS, fs': FS) {
    forall q :: IsFile(fs, q) ==> Locate(fs', q) == Locate(fs, q)
  }

  /** Nothing that was absent has appeared. */
  ghost predicate AddsNothing(fs: FS, fs': FS) {
    forall q :: !Exists(fs, q) ==> !Exists(fs', q)
  }

  /** The state after a loop over operands: the tree, what was written, the exit code. */
  datatype Step = Step(fs: FS, stdout: string, exitCode: int)

  // ---------------------------------------------------------------------------
  // cd and pwd

  /** `args[0]`, or `env.HOME || '/home'` when there is no operand. */
  function CdTarget(inv: Invocation): string {
    if |inv.args| == 0 then EnvOr(inv.env, "HOME", "/home") else inv.args[0]
  }

  /** `pwd` prints the filesystem's own working directory, not the `cwd` option, and changes
      nothing. */
  function Pwd(inv: Invocation): (r: Outcome)
    ensures r.exitCode == 0 && r.fs == inv.fs && r.env == inv.env && r.aliases == inv.extras.aliases
    ensures r.stdout == Lines([GetCwd(inv.fs)])
  {
    Finish(inv, 0, inv.fs.cwd + "\n")
  }

  /** `cd` moves to an existing directory and to nothing else; afterwards `pwd` prints where
      it went. */
  function Cd(inv: Invocation): (r: Outcome)
    ensures r.env == inv.env && r.aliases == inv.extras.aliases && r.output == ""
    ensures r.fs.root == inv.fs.root
    ensures var target := CdTarget(inv);
      var p := Abs(inv, target);
      && (r.exitCode == 0 <==> IsDirectory(inv.fs, p))
      && (r.exitCode == 0 ==> r.stdout == "" && r.fs.cwd == p && Pwd(inv.(fs := r.fs)).stdout == p + "\n")
      && (r.exitCode != 0 ==> r.exitCode == 1 && r.fs == inv.fs)
      && (!Exists(inv.fs, p) ==> r.stdout == "cd: " + target + ": No such file or directory\n")
      && (IsFile(inv.fs, p) ==> r.stdout == "cd: " + target + ": Not a directory\n")
  {
    var target := CdTarget(inv);
    var p := Abs(inv, target);
    if !Exists(inv.fs, p) then
      Finish(inv, 1, "cd: " + target + ": No such file or directory\n")
    else if !IsDirectory(inv.fs, p) then
      Finish(inv, 1, "cd: " + target + ": Not a directory\n")
    else
      ResolveIsNormal(target, BaseDir(inv));
      Outcome(0, "", "", SetCwd(inv.fs, p), inv.env, inv.extras.aliases)
  }

  // ---------------------------------------------------------------------------
  // ls

  /** `args[0] || cwd`. */
  function LsPath(inv: Invocation): string {
    if |inv.args| > 0 && inv.args[0] != "" then inv.args[0] else inv.cwd
  }

  /** The names in a directory, in insertion order. */
  function Listing(fs: FS, p: string): seq<string>
    requires IsDirectory(fs, p)
  {
    ChildKeys(Locate(fs, p).value.children)
  }

  /** What `ls` prints for a file operand as the source writes it: `args[0] || path + '\n'`
      binds as `args[0] || (path + '\n')`, so a named file is printed without a newline. */
  function LsFileLineAsWritten(inv: Invocation): string {
    if |inv.args| > 0 && inv.args[0] != "" then inv.args[0] else LsPath(inv) + "\n"
  }

  /** The as-written line for a named file never ends the line. */
  lemma LsFileLineUnterminated(inv: Invocation)
    requires |inv.args| > 0 && inv.args[0] != "" && '\n' !in inv.args[0]
    ensures !EndsWith(LsFileLineAsWritten(inv), "\n")
    ensures Split(LsFileLineAsWritten(inv), '\n') == [inv.args[0]]
  {
    var a := inv.args[0];
    SplitNoSep(a, '\n');
    assert a[|a| - 1] in a;
    assert a[|a| - 1..] == [a[|a| - 1]];
  }

  /** `ls`: a directory's names in sorted order, one per line; for a file, the name given on
      the command line with no newline after it (the precedence of `args[0] || path + '\n'`);
      an error for a missing path. */
  function Ls(inv: Invocation): (r: Outcome)
    ensures r.fs == inv.fs && r.env == inv.env && r.aliases == inv.extras.aliases && r.output == ""
    ensures var path := LsPath(inv);
      var p := Abs(inv, path);
      && (r.exitCode == 0 <==> Exists(inv.fs, p))
      && (r.exitCode != 0 ==> r.exitCode == 1 && r.stdout == "ls: cannot access '" + path + "': No such file or directory\n")
      && (IsFile(inv.fs, p) && |inv.args| > 0 && inv.args[0] != "" ==> r.stdout == inv.args[0])
      && (IsFile(inv.fs, p) && !(|inv.args| > 0 && inv.args[0] != "") ==> r.stdout == Lines([path]))
      && (IsDirectory(inv.fs, p) ==>
            exists names :: r.stdout == Lines(names) && Sorted(names)
                            && multiset(names) == multiset(Listing(inv.fs, p)))
  {
    var path := LsPath(inv);
    var p := Abs(inv, path);
    if !Exists(inv.fs, p) then
      Finish(inv, 1, "ls: cannot access '" + path + "': No such file or directory\n")
    else if !IsDirectory(inv.fs, p) then
      Finish(inv, 0, LsFileLineAsWritten(inv))
    else
      var names := Sort(ReadDir(inv.fs, p).value);
      Finish(inv, 0, Lines(names))
  }

  /** `ls` as evidently intended: a file's name on a line of its own, like every other line
      `ls` prints. */
  function LsIntended(inv: Invocation): (r: Outcome)
    ensures r.fs == inv.fs && r.env == inv.env && r.aliases == inv.extras.aliases && r.output == ""
    ensures var path := LsPath(inv);
      var p := Abs(inv, path);
      && (r.exitCode == 0 <==> Exists(inv.fs, p))
      && (r.exitCode != 0 ==> r.exitCode == 1 && r.stdout == "ls: cannot access '" + path + "': No such file or directory\n")
      && (IsFile(inv.fs, p) ==> r.stdout == Lines([path]))
      && (IsDirectory(inv.fs, p) ==>
            exists names :: r.stdout == Lines(names) && Sorted(names)
                            && multiset(names) == multiset(Listing(inv.fs, p)))
  {
    var path := LsPath(inv);
    var p := Abs(inv, path);
    if !Exists(inv.fs, p) then
      Finish(inv, 1, "ls: cannot access '" + path + "': No such file or directory\n")
    else if !IsDirectory(inv.fs, p) then
      Finish(inv, 0, path + "\n")
    else
      var names := Sort(ReadDir(inv.fs, p).value);
      Finish(inv, 0, Lines(names))
  }

  /** The two differ only on a file named on the command line, where the intended `ls` adds
      the newline the program leaves off. */
  lemma LsIntendedAddsNewline(inv: Invocation)
    ensures var p := Abs(inv, LsPath(inv));
      && (IsFile(inv.fs, p) && |inv.args| > 0 && inv.args[0] != "" ==>
            LsIntended(inv).stdout == Ls(inv).stdout + "\n" && Ls(inv).stdout == inv.args[0])
      && (!(IsFile(inv.fs, p) && |inv.args| > 0 && inv.args[0] != "") ==> LsIntended(inv) == Ls(inv))
  {
  }

  /** After a successful `cd`, `ls` with no operand lists the directory `cd` moved to. */
  lemma CdThenLs(inv: Invocation)
    requires Cd(inv).exitCode == 0
    ensures var fs' := Cd(inv).fs;
      var p := Abs(inv, CdTarget(inv));
      var after := Ls(inv.(args := [], fs := fs', cwd := fs'.cwd));
      && IsDirectory(inv.fs, p)
      && after.exitCode == 0
      && after.stdout == Lines(Sort(Listing(inv.fs, p)))
  {
    var fs' := Cd(inv).fs;
    var p := Abs(inv, CdTarget(inv));
    ResolveIsNormal(CdTarget(inv), BaseDir(inv));
    LsAt(inv.(args := [], fs := fs', cwd := fs'.cwd), inv.fs, p);
  }

  /** `ls` with no operand, run in a normalised absolute directory of a filesystem with the same
      tree, lists that directory. */
  lemma LsAt(inv: Invocation, fs: FS, p: string)
    requires inv.args == [] && inv.cwd == p && inv.fs.root == fs.root
    requires |p| >= 1 && p[0] == '/' && Normalize(p) == p && IsDirectory(fs, p)
    ensures Ls(inv).exitCode == 0 && Ls(inv).stdout == Lines(Sort(Listing(fs, p)))
  {
    assert StartsWith(p, "/");
    assert Abs(inv, LsPath(inv)) == p;
    AbsoluteIgnoresCwd(fs, inv.fs, p);
  }

  // ---------------------------------------------------------------------------
  // cat

  /** A file as `cat` writes it: its content, then a newline unless it already ends with one. */
  function Terminated(s: string): (r: string)
    ensures EndsWith(r, "\n") && s <= r && |r| <= |s| + 1
    ensures EndsWith(s, "\n") ==> r == s
  {
    if EndsWith(s, "\n") then s else s + "\n"
  }

  /** What `cat` finds at an operand. */
  datatype Lookup = Missing | Directory | Text(content: string)

  function Look(fs: FS, p: string): (r: Lookup)
    ensures r.Text? <==> IsFile(fs, p)
    ensures r == Missing <==> !Exists(fs, p)
    ensures r.Text? ==> ReadFile(fs, p) == Ok(r.content)
  {
    match Locate(fs, p)
    case None => Missing
    case Some(node) => if node.File? then Text(node.content) else Directory
  }

  /** The operands as `cat` sees them, looked up in the tree it runs against. */
  function Looks(inv: Invocation, files: seq<string>): (r: seq<Lookup>)
    ensures |r| == |files|
    ensures forall i :: 0 <= i < |files| ==> r[i] == Look(inv.fs, Abs(inv, files[i]))
  {
    seq(|files|, i requires 0 <= i < |files| => Look(inv.fs, Abs(inv, files[i])))
  }

  /** The diagnostic for an operand that is not a file. */
  function CatError(name: string, look: Lookup): string {
    if look == Missing then "cat: " + name + ": No such file or directory\n"
    else "cat: " + name + ": Is a directory\n"
  }

  /** The operands' contents in order, up to and including the diagnostic for the first one
      that is not a file; the flag says whether every operand was a file. */
  function CatFiles(names: seq<string>, looks: seq<Lookup>): (r: (string, bool))
    requires |names| == |looks|
    ensures r.1 <==> forall i :: 0 <= i < |looks| ==> looks[i].Text?
    decreases |names|
  {
    if |names| == 0 then ("", true)
    else if !looks[0].Text? then (CatError(names[0], looks[0]), false)
    else
      var rest := CatFiles(names[1..], looks[1..]);
      assert forall i :: 1 <= i < |looks| ==> looks[i] == looks[1..][i - 1];
      (Terminated(looks[0].content) + rest.0, rest.1)
  }

  /** `cat` copies stdin without operands, otherwise the files in order, stopping at the
      first operand that is not a file. */
  function Cat(inv: Invocation): (r: Outcome)
    ensures r.fs == inv.fs && r.env == inv.env && r.aliases == inv.extras.aliases && r.output == ""
    ensures r.exitCode == 0 || r.exitCode == 1
    ensures |inv.args| == 0 ==> r.exitCode == 0 && r.stdout == inv.stdin
    ensures |inv.args| > 0 ==>
      (r.exitCode == 0 <==> forall i :: 0 <= i < |inv.args| ==> IsFile(inv.fs, Abs(inv, inv.args[i])))
  {
    if |inv.args| == 0 then Finish(inv, 0, inv.stdin)
    else
      var c := CatFiles(inv.args, Looks(inv, inv.args));
      Finish(inv, if c.1 then 0 else 1, c.0)
  }

  /** Output stops at the first operand that is not a file: what precedes it, then its
      diagnostic, and nothing after. */
  lemma {:induction false} CatUpToFailure(names: seq<string>, looks: seq<Lookup>, k: nat)
    requires |names| == |looks| && k < |looks| && !looks[k].Text?
    requires forall i :: 0 <= i < k ==> looks[i].Text?
    ensures CatFiles(names, looks).0 == CatFiles(names[..k], looks[..k]).0 + CatError(names[k], looks[k])
    decreases k
  {
    if k > 0 {
      assert looks[1..][k - 1] == looks[k] && names[1..][k - 1] == names[k];
      assert names[..k][1..] == names[1..][..k - 1];
      assert looks[..k][1..] == looks[1..][..k - 1];
      CatUpToFailure(names[1..], looks[1..], k - 1);
    }
  }

  /** One file operand: its text, newline-terminated. */
  lemma CatOne(name: string, content: string)
    ensures CatFiles([name], [Text(content)]) == (Terminated(content), true)
  {
    assert [name][1..] == [] && [Text(content)][1..] == [];
    assert CatFiles([], []) == ("", true);
    assert Terminated(content) + "" == Terminated(content);
  }

  /** A file just written is found with the written text. */
  lemma LookAfterWrite(fs: FS, p: string, content: string, now: nat)
    requires Target(fs, p) != [] && WriteFile(fs, p, content, now).Ok?
    ensures Look(WriteFile(fs, p, content, now).value, p) == Text(content)
  {
    WriteFileReadBack(fs, p, content, now);
  }

  /** The operand just written is found with the written text. */
  lemma WrittenOperand(inv: Invocation, a: string, content: string)
    requires Abs(inv, a) != "/" && WriteFile(inv.fs, Abs(inv, a), content, inv.now).Ok?
    ensures var inv' := inv.(args := [a], fs := WriteFile(inv.fs, Abs(inv, a), content, inv.now).value);
      Looks(inv', [a]) == [Text(content)]
  {
    var p := Abs(inv, a);
    var fs' := WriteFile(inv.fs, p, content, inv.now).value;
    Resolved(inv.fs, a, BaseDir(inv));
    LookAfterWrite(inv.fs, p, content, inv.now);
    WriteFileReadBack(inv.fs, p, content, inv.now);
    LooksOne(inv.(args := [a], fs := fs'), a);
    AbsSameCwd(inv, [a], fs', a);
  }

  /** Looking up one operand. */
  lemma LooksOne(inv: Invocation, a: string)
    ensures Looks(inv, [a]) == [Look(inv.fs, Abs(inv, a))]
  {
  }

  /** Operands resolve the same against a tree with the same working directory. */
  lemma AbsSameCwd(inv: Invocation, args: seq<string>, fs': FS, a: string)
    requires fs'.cwd == inv.fs.cwd
    ensures Abs(inv.(args := args, fs := fs'), a) == Abs(inv, a)
  {
    assert BaseDir(inv.(args := args, fs := fs')) == BaseDir(inv);
  }

  /** Writing a file and then `cat`-ing it prints what was written, newline-terminated. */
  lemma CatAfterWrite(inv: Invocation, a: string, content: string)
    requires Abs(inv, a) != "/" && WriteFile(inv.fs, Abs(inv, a), content, inv.now).Ok?
    ensures var inv' := inv.(args := [a], fs := WriteFile(inv.fs, Abs(inv, a), content, inv.now).value);
      Cat(inv').exitCode == 0 && Cat(inv').stdout == Terminated(content)
  {
    WrittenOperand(inv, a, content);
    CatOne(a, content);
  }

  // ---------------------------------------------------------------------------
  // Operands resolved once, against the invocation's directory

  /** The operands' resolved paths. */
  function Operands(inv: Invocation, names: seq<string>): (r: seq<string>)
    ensures |r| == |names|
    ensures forall i :: 0 <= i < |names| ==> r[i] == Abs(inv, names[i])
  {
    seq(|names|, i requires 0 <= i < |names| => Abs(inv, names[i]))
  }

  // ---------------------------------------------------------------------------
  // mkdir

  /** Creates each directory in turn, stopping at the first operand that exists or cannot be
      created. */
  function MkdirEach(fs: FS, names: seq<string>, paths: seq<string>, now: nat): (r: Step)
    requires |names| == |paths|
    decreases |paths|
  {
    if |paths| == 0 then Step(fs, "", 0)
    else if Exists(fs, paths[0]) then
      Step(fs, "mkdir: cannot create directory '" + names[0] + "': File exists\n", 1)
    else
      match CreateDir(fs, paths[0], now)
      case Err(e) => Step(fs, "mkdir: " + e + "\n", 1)
      case Ok(fs1) => MkdirEach(fs1, names[1..], paths[1..], now)
  }

  /** What mkdir may do to the tree: nothing removed, no kind changed, everything new a
      directory, the tree still well formed. */
  ghost predicate GrowsByDirs(fs: FS, fs': FS) {
    && ValidFS(fs') && fs'.cwd == fs.cwd && KeepsAll(fs, fs')
    && forall q :: Exists(fs', q) && !Exists(fs, q) ==> IsDirectory(fs', q)
  }

  lemma GrowsByDirsTrans(a: FS, b: FS, c: FS)
    requires GrowsByDirs(a, b) && GrowsByDirs(b, c)
    ensures GrowsByDirs(a, c)
  {
    forall q | Exists(c, q) && !Exists(a, q) ensures IsDirectory(c, q) {
      if Exists(b, q) {
        assert IsDirectory(b, q);
      }
    }
  }

  /** One `createDir` of an absent path. */
  lemma MkdirStep(fs: FS, p: string, now: nat)
    requires ValidFS(fs) && !Exists(fs, p) && CreateDir(fs, p, now).Ok?
    ensures GrowsByDirs(fs, CreateDir(fs, p, now).value)
    ensures IsDirectory(CreateDir(fs, p, now).value, p)
  {
    var fs1 := CreateDir(fs, p, now).value;
    LocateWalk(fs, p);
    CreateDirValid(fs, p, now);
    CreateDirAdds(fs, p, now);
    LocateWalk(fs1, p);
    forall q | Exists(fs, q) ensures Exists(fs1, q) && IsFile(fs1, q) == IsFile(fs, q) {
      CreateDirKeeps(fs, p, now, q);
    }
    forall q | Exists(fs1, q) && !Exists(fs, q) ensures IsDirectory(fs1, q) {
      CreateDirOnlyAdds(fs, p, now, q);
      LocateWalk(fs1, q);
    }
  }

  /** mkdir removes nothing and changes the kind of nothing; everything new is a directory; and
      on success every operand was absent before and is a directory after. */
  lemma {:induction false} MkdirEachSpec(fs: FS, names: seq<string>, paths: seq<string>, now: nat)
    requires |names| == |paths|
    ensures var r := MkdirEach(fs, names, paths, now);
      && (ValidFS(fs) ==> GrowsByDirs(fs, r.fs))
      && (ValidFS(fs) && r.exitCode == 0 ==>
            forall i :: 0 <= i < |paths| ==> !Exists(fs, paths[i]) && IsDirectory(r.fs, paths[i]))
    decreases |paths|
  {
    if |paths| == 0 {
      return;
    }
    var n1, p1 := names[1..], paths[1..];
    assert |n1| == |p1| && |p1| < |paths|;
    var r := MkdirEach(fs, names, paths, now);
    if !Exists(fs, paths[0]) && CreateDir(fs, paths[0], now).Ok? {
      var fs1 := CreateDir(fs, paths[0], now).value;
      MkdirEachSpec(fs1, n1, p1, now);
      assert r == MkdirEach(fs1, n1, p1, now);
      if ValidFS(fs) {
        MkdirStep(fs, paths[0], now);
        MkdirCombine(fs, fs1, r.fs, paths, r.exitCode == 0);
      }
    }
  }

  /** mkdir exits 0 or 1. */
  lemma {:induction false} MkdirEachExit(fs: FS, names: seq<string>, paths: seq<string>, now: nat)
    requires |names| == |paths|
    ensures MkdirEach(fs, names, paths, now).exitCode in {0, 1}
    decreases |paths|
  {
    if |paths| == 0 {
      return;
    }
    var n1, p1 := names[1..], paths[1..];
    assert |n1| == |p1| && |p1| < |paths|;
    if !Exists(fs, paths[0]) && CreateDir(fs, paths[0], now).Ok? {
      MkdirEachExit(CreateDir(fs, paths[0], now).value, n1, p1, now);
    }
  }

  /** The first operand created, then the rest: the whole run's promise. */
  lemma MkdirCombine(fs: FS, fs1: FS, fs2: FS, paths: seq<string>, ok: bool)
    requires |paths| > 0 && !Exists(fs, paths[0]) && IsDirectory(fs1, paths[0])
    requires GrowsByDirs(fs, fs1) && GrowsByDirs(fs1, fs2)
    requires ok ==> forall i :: 0 <= i < |paths| - 1 ==> !Exists(fs1, paths[1..][i]) && IsDirectory(fs2, paths[1..][i])
    ensures GrowsByDirs(fs, fs2)
    ensures ok ==> forall i :: 0 <= i < |paths| ==> !Exists(fs, paths[i]) && IsDirectory(fs2, paths[i])
  {
    GrowsByDirsTrans(fs, fs1, fs2);
    if ok {
      forall i | 0 <= i < |paths| ensures !Exists(fs, paths[i]) && IsDirectory(fs2, paths[i]) {
        if i > 0 {
          assert paths[i] == paths[1..][i - 1];
        }
      }
    }
  }

  /** `mkdir`: a missing operand is an error; otherwise the operands are created in order. */
  function Mkdir(inv: Invocation): (r: Outcome)
    ensures r.env == inv.env && r.aliases == inv.extras.aliases && r.output == ""
    ensures r.exitCode == 0 || r.exitCode == 1
    ensures |inv.args| == 0 ==> r == Finish(inv, 1, "mkdir: missing operand\n")
    ensures r.exitCode == 0 ==> |inv.args| > 0
    ensures ValidFS(inv.fs) ==>
      && GrowsByDirs(inv.fs, r.fs)
      && (r.exitCode == 0 ==> forall i :: 0 <= i < |inv.args| ==>
            !Exists(inv.fs, Abs(inv, inv.args[i])) && IsDirectory(r.fs, Abs(inv, inv.args[i])))
  {
    if |inv.args| == 0 then Finish(inv, 1, "mkdir: missing operand\n")
    else
      var paths := Operands(inv, inv.args);
      var s := MkdirEach(inv.fs, inv.args, paths, inv.now);
      MkdirEachExit(inv.fs, inv.args, paths, inv.now);
      MkdirEachSpec(inv.fs, inv.args, paths, inv.now);
      Outcome(s.exitCode, "", s.stdout, s.fs, inv.env, inv.extras.aliases)
  }

  // ---------------------------------------------------------------------------
  // touch

  /** Creates each absent operand as an empty file, skipping those that exist, stopping at the
      first write that fails. */
  function TouchEach(fs: FS, paths: seq<string>, now: nat): (r: Step)
    decreases |paths|
  {
    if |paths| == 0 then Step(fs, "", 0)
    else if Exists(fs, paths[0]) then TouchEach(fs, paths[1..], now)
    else
      match WriteFile(fs, paths[0], "", now)
      case Err(e) => Step(fs, "touch: " + e + "\n", 1)
      case Ok(fs1) => TouchEach(fs1, paths[1..], now)
  }

  /** What touch may do to the tree: every existing file left exactly as it was, every
      directory kept, everything new an empty file, the tree still well formed. */
  ghost predicate GrowsByEmptyFiles(fs: FS, fs': FS) {
    && ValidFS(fs') && fs'.cwd == fs.cwd && KeepsAll(fs, fs') && KeepsFiles(fs, fs')
    && forall q :: Exists(fs', q) && !Exists(fs, q) ==> ReadFile(fs', q) == Ok("")
  }

  lemma GrowsByEmptyFilesTrans(a: FS, b: FS, c: FS)
    requires GrowsByEmptyFiles(a, b) && GrowsByEmptyFiles(b, c)
    ensures GrowsByEmptyFiles(a, c)
  {
    forall q | Exists(c, q) && !Exists(a, q) ensures ReadFile(c, q) == Ok("") {
      if Exists(b, q) {
        assert ReadFile(b, q) == Ok("");
        assert IsFile(b, q);
      }
    }
  }

  /** One `writeFile(p, '')` of an absent path. */
  lemma TouchStep(fs: FS, p: string, now: nat)
    requires ValidFS(fs) && !Exists(fs, p) && WriteFile(fs, p, "", now).Ok?
    ensures GrowsByEmptyFiles(fs, WriteFile(fs, p, "", now).value)
    ensures Exists(WriteFile(fs, p, "", now).value, p)
  {
    LocateWalk(fs, p);
    WriteFileValid(fs, p, "", now);
    WriteFileReadBack(fs, p, "", now);
    WriteKeepsAll(fs, p, "", now);
    TouchStepFiles(fs, p, now);
    TouchStepNew(fs, p, now);
  }

  /** A successful `writeFile` keeps every path, as the same kind. */
  lemma WriteKeepsAll(fs: FS, p: string, content: string, now: nat)
    requires WriteFile(fs, p, content, now).Ok?
    ensures KeepsAll(fs, WriteFile(fs, p, content, now).value)
  {
    forall q | Exists(fs, q)
      ensures Exists(WriteFile(fs, p, content, now).value, q)
      ensures IsFile(WriteFile(fs, p, content, now).value, q) == IsFile(fs, q)
    {
      WriteFileKeeps(fs, p, content, now, q);
    }
  }

  lemma TouchStepFiles(fs: FS, p: string, now: nat)
    requires !Exists(fs, p) && WriteFile(fs, p, "", now).Ok?
    ensures KeepsFiles(fs, WriteFile(fs, p, "", now).value)
  {
    LocateWalk(fs, p);
    forall q | IsFile(fs, q) ensures Locate(WriteFile(fs, p, "", now).value, q) == Locate(fs, q) {
      LocateWalk(fs, q);
      WriteFileAway(fs, p, "", now, q);
    }
  }

  lemma TouchStepNew(fs: FS, p: string, now: nat)
    requires !Exists(fs, p) && WriteFile(fs, p, "", now).Ok?
    ensures var fs1 := WriteFile(fs, p, "", now).value;
      forall q :: Exists(fs1, q) && !Exists(fs, q) ==> ReadFile(fs1, q) == Ok("")
  {
    var fs1 := WriteFile(fs, p, "", now).value;
    forall q | Exists(fs1, q) && !Exists(fs, q) ensures ReadFile(fs1, q) == Ok("") {
      NewIsEmpty(fs, p, now, q);
    }
  }

  lemma NewIsEmpty(fs: FS, p: string, now: nat, q: string)
    requires !Exists(fs, p) && WriteFile(fs, p, "", now).Ok?
    requires Exists(WriteFile(fs, p, "", now).value, q) && !Exists(fs, q)
    ensures ReadFile(WriteFile(fs, p, "", now).value, q) == Ok("")
  {
    MissingNotRoot(fs, p);
    WriteFileReadBack(fs, p, "", now);
    SameTargetSameNode(fs, p, "", now, q);
    ReadSameNode(WriteFile(fs, p, "", now).value, p, q);
  }

  /** A missing path is not the root. */
  lemma MissingNotRoot(fs: FS, p: string)
    requires !Exists(fs, p)
    ensures Target(fs, p) != []
  {
    LocateWalk(fs, p);
  }

  /** Two paths that locate the same node read the same content. */
  lemma ReadSameNode(fs: FS, p: string, q: string)
    requires Locate(fs, q) == Locate(fs, p) && ReadFile(fs, p).Ok?
    ensures ReadFile(fs, q) == ReadFile(fs, p)
  {
  }

  /** A path that appears through a write names the written entry. */
  lemma SameTargetSameNode(fs: FS, p: string, content: string, now: nat, q: string)
    requires Target(fs, p) != [] && WriteFile(fs, p, content, now).Ok?
    requires Exists(WriteFile(fs, p, content, now).value, q) && !Exists(fs, q)
    ensures Locate(WriteFile(fs, p, content, now).value, q) == Locate(WriteFile(fs, p, content, now).value, p)
  {
    var fs1 := WriteFile(fs, p, content, now).value;
    WriteFileOnlyAdds(fs, p, content, now, q);
    WriteFileReadBack(fs, p, content, now);
    assert Target(fs1, q) == Target(fs1, p);
    LocateWalk(fs1, q);
    LocateWalk(fs1, p);
  }

  /** touch leaves every existing file exactly as it was (timestamps included), keeps every
      directory, creates nothing but empty files, and on success every operand exists. */
  lemma {:induction false} TouchEachSpec(fs: FS, paths: seq<string>, now: nat)
    ensures var r := TouchEach(fs, paths, now);
      && (r.exitCode == 0 || r.exitCode == 1)
      && (ValidFS(fs) ==> GrowsByEmptyFiles(fs, r.fs))
      && (ValidFS(fs) && r.exitCode == 0 ==> forall i :: 0 <= i < |paths| ==> Exists(r.fs, paths[i]))
    decreases |paths|
  {
    var r := TouchEach(fs, paths, now);
    if |paths| > 0 {
      var p := paths[0];
      if Exists(fs, p) {
        TouchEachSpec(fs, paths[1..], now);
        if ValidFS(fs) {
          TouchCombine(fs, fs, r.fs, paths, r.exitCode == 0);
        }
      } else if WriteFile(fs, p, "", now).Ok? {
        var fs1 := WriteFile(fs, p, "", now).value;
        TouchEachSpec(fs1, paths[1..], now);
        assert r == TouchEach(fs1, paths[1..], now);
        if ValidFS(fs) {
          TouchStep(fs, p, now);
          TouchCombine(fs, fs1, r.fs, paths, r.exitCode == 0);
        }
      }
    }
  }

  /** The first operand handled, then the rest: the whole run's promise. */
  lemma TouchCombine(fs: FS, fs1: FS, fs2: FS, paths: seq<string>, ok: bool)
    requires |paths| > 0 && Exists(fs1, paths[0]) && ValidFS(fs)
    requires fs1 == fs || GrowsByEmptyFiles(fs, fs1)
    requires GrowsByEmptyFiles(fs1, fs2)
    requires ok ==> forall i :: 0 <= i < |paths| - 1 ==> Exists(fs2, paths[1..][i])
    ensures GrowsByEmptyFiles(fs, fs2)
    ensures ok ==> forall i :: 0 <= i < |paths| ==> Exists(fs2, paths[i])
  {
    if fs1 != fs {
      GrowsByEmptyFilesTrans(fs, fs1, fs2);
    }
    if ok {
      forall i | 0 <= i < |paths| ensures Exists(fs2, paths[i]) {
        if i > 0 {
          assert paths[i] == paths[1..][i - 1];
        }
      }
    }
  }

  /** `touch`: a missing operand is an error; otherwise absent operands become empty files. */
  function Touch(inv: Invocation): (r: Outcome)
    ensures r.env == inv.env && r.aliases == inv.extras.aliases && r.output == ""
    ensures r.exitCode == 0 || r.exitCode == 1
    ensures |inv.args| == 0 ==> r == Finish(inv, 1, "touch: missing file operand\n")
    ensures r.exitCode == 0 ==> |inv.args| > 0
    ensures ValidFS(inv.fs) ==>
      && GrowsByEmptyFiles(inv.fs, r.fs)
      && (r.exitCode == 0 ==> forall i :: 0 <= i < |inv.args| ==> Exists(r.fs, Abs(inv, inv.args[i])))
  {
    if |inv.args| == 0 then Finish(inv, 1, "touch: missing file operand\n")
    else
      var paths := Operands(inv, inv.args);
      var s := TouchEach(inv.fs, paths, inv.now);
      TouchEachSpec(inv.fs, paths, inv.now);
      Outcome(s.exitCode, "", s.stdout, s.fs, inv.env, inv.extras.aliases)
  }

  // ---------------------------------------------------------------------------
  // rm

  /** `flags.r || flags.recursive`. */
  predicate Recursive(inv: Invocation) {
    Truthy(inv.flags, "r") || Truthy(inv.flags, "recursive")
  }

  /** Removes each operand in turn, stopping at the first that is missing, is a directory
      without -r, or cannot be deleted. */
  function RmEach(fs: FS, names: seq<string>, paths: seq<string>, recursive: bool): Step
    requires |names| == |paths|
    decreases |paths|
  {
    if |paths| == 0 then Step(fs, "", 0)
    else if !Exists(fs, paths[0]) then
      Step(fs, "rm: cannot remove '" + names[0] + "': No such file or directory\n", 1)
    else if IsDirectory(fs, paths[0]) && !recursive then
      Step(fs, "rm: cannot remove '" + names[0] + "': Is a directory (use -r for recursive)\n", 1)
    else
      match DeleteFile(fs, paths[0])
      case Err(e) => Step(fs, "rm: " + e + "\n", 1)
      case Ok(fs1) => RmEach(fs1, names[1..], paths[1..], recursive)
  }

  /** A path that names none of the operands. */
  ghost predicate Spared(fs: FS, q: string, paths: seq<string>) {
    forall i :: 0 <= i < |paths| ==> Target(fs, q) != Target(fs, paths[i])
  }

  /** What rm may do to the tree: nothing appears, and every file that is not an operand keeps
      its place, content and metadata. */
  ghost predicate ShrinksBy(fs: FS, fs': FS, paths: seq<string>) {
    && ValidFS(fs') && fs'.cwd == fs.cwd && AddsNothing(fs, fs')
    && forall q :: IsFile(fs, q) && Spared(fs, q, paths) ==> Locate(fs', q) == Locate(fs, q)
  }

  /** One successful `deleteFile`. */
  lemma RmStep(fs: FS, p: string)
    requires ValidFS(fs) && Target(fs, p) != [] && DeleteFile(fs, p).Ok?
    ensures ShrinksBy(fs, DeleteFile(fs, p).value, [p])
    ensures Exists(fs, p) && !Exists(DeleteFile(fs, p).value, p)
  {
    var fs1 := DeleteFile(fs, p).value;
    DeleteFileValid(fs, p);
    DeleteFileRemoves(fs, p);
    forall q | !Exists(fs, q) ensures !Exists(fs1, q) {
      DeleteFileKeepsAbsent(fs, p, q);
    }
    forall q | IsFile(fs, q) && Spared(fs, q, [p]) ensures Locate(fs1, q) == Locate(fs, q) {
      assert Target(fs, q) != Target(fs, [p][0]);
      DeleteFileAway(fs, p, q);
    }
  }

  /** The first operand removed, then the rest: the whole run's promise. */
  lemma RmCombine(fs: FS, fs1: FS, fs2: FS, paths: seq<string>, ok: bool)
    requires |paths| > 0 && Exists(fs, paths[0]) && !Exists(fs1, paths[0])
    requires ShrinksBy(fs, fs1, [paths[0]]) && ShrinksBy(fs1, fs2, paths[1..])
    requires ok ==> forall i :: 0 <= i < |paths| - 1 ==>
      Exists(fs1, paths[1..][i]) && !Exists(fs2, paths[1..][i])
    ensures ShrinksBy(fs, fs2, paths)
    ensures ok ==> forall i :: 0 <= i < |paths| ==> Exists(fs, paths[i]) && !Exists(fs2, paths[i])
  {
    forall q | IsFile(fs, q) && Spared(fs, q, paths) ensures Locate(fs2, q) == Locate(fs, q) {
      assert Spared(fs, q, [paths[0]]) by {
        assert Target(fs, q) != Target(fs, paths[0]);
      }
      assert Spared(fs1, q, paths[1..]) by {
        forall i | 0 <= i < |paths| - 1 ensures Target(fs1, q) != Target(fs1, paths[1..][i]) {
          assert Target(fs, q) != Target(fs, paths[i + 1]);
        }
      }
    }
    if ok {
      forall i | 0 <= i < |paths| ensures Exists(fs, paths[i]) && !Exists(fs2, paths[i]) {
        if i > 0 {
          assert paths[i] == paths[1..][i - 1];
        }
      }
    }
  }

  /** rm brings nothing into existence, touches no file it was not given, and on success every
      operand existed and is gone. Operands naming the root are excluded: deleting "/" removes
      the root's entry named "" instead. */
  lemma {:induction false} RmEachSpec(fs: FS, names: seq<string>, paths: seq<string>, recursive: bool)
    requires |names| == |paths|
    ensures var r := RmEach(fs, names, paths, recursive);
      ValidFS(fs) && (forall i :: 0 <= i < |paths| ==> Target(fs, paths[i]) != []) ==>
        && ShrinksBy(fs, r.fs, paths)
        && (r.exitCode == 0 ==>
              forall i :: 0 <= i < |paths| ==> Exists(fs, paths[i]) && !Exists(r.fs, paths[i]))
    decreases |paths|
  {
    if |paths| == 0 {
      return;
    }
    var n1, p1 := names[1..], paths[1..];
    assert |n1| == |p1| && |p1| < |paths|;
    var r := RmEach(fs, names, paths, recursive);
    if Exists(fs, paths[0]) && !(IsDirectory(fs, paths[0]) && !recursive) && DeleteFile(fs, paths[0]).Ok? {
      var fs1 := DeleteFile(fs, paths[0]).value;
      RmEachSpec(fs1, n1, p1, recursive);
      assert r == RmEach(fs1, n1, p1, recursive);
      if ValidFS(fs) && (forall i :: 0 <= i < |paths| ==> Target(fs, paths[i]) != []) {
        RmStep(fs, paths[0]);
        TargetsCarry(fs, fs1, paths);
        RmCombine(fs, fs1, r.fs, paths, r.exitCode == 0);
      }
    }
  }

  /** rm exits 0 or 1. */
  lemma {:induction false} RmEachExit(fs: FS, names: seq<string>, paths: seq<string>, recursive: bool)
    requires |names| == |paths|
    ensures RmEach(fs, names, paths, recursive).exitCode in {0, 1}
    decreases |paths|
  {
    if |paths| == 0 {
      return;
    }
    var n1, p1 := names[1..], paths[1..];
    assert |n1| == |p1| && |p1| < |paths|;
    if Exists(fs, paths[0]) && !(IsDirectory(fs, paths[0]) && !recursive) && DeleteFile(fs, paths[0]).Ok? {
      RmEachExit(DeleteFile(fs, paths[0]).value, n1, p1, recursive);
    }
  }

  lemma TargetsCarry(fs: FS, fs1: FS, paths: seq<string>)
    requires fs1.cwd == fs.cwd && |paths| > 0
    requires forall i :: 0 <= i < |paths| ==> Target(fs, paths[i]) != []
    ensures forall i :: 0 <= i < |paths| - 1 ==> Target(fs1, paths[1..][i]) != []
  {
    forall i | 0 <= i < |paths| - 1 ensures Target(fs1, paths[1..][i]) != [] {
      assert paths[1..][i] == paths[i + 1];
    }
  }

  /** Operands that do not resolve to "/" have segments. */
  lemma NotRoot(inv: Invocation)
    ensures (forall i :: 0 <= i < |inv.args| ==> Abs(inv, inv.args[i]) != "/") ==>
      forall i :: 0 <= i < |inv.args| ==> Target(inv.fs, Operands(inv, inv.args)[i]) != []
  {
    forall i | 0 <= i < |inv.args| && Abs(inv, inv.args[i]) != "/"
      ensures Target(inv.fs, Operands(inv, inv.args)[i]) != []
    {
      Resolved(inv.fs, inv.args[i], BaseDir(inv));
    }
  }

  /** `rm`: a missing operand is an error; otherwise the operands are deleted in order. */
  function Rm(inv: Invocation): (r: Outcome)
    ensures r.env == inv.env && r.aliases == inv.extras.aliases && r.output == ""
    ensures r.exitCode == 0 || r.exitCode == 1
    ensures |inv.args| == 0 ==> r == Finish(inv, 1, "rm: missing operand\n")
    ensures r.exitCode == 0 ==> |inv.args| > 0
    ensures ValidFS(inv.fs) && (forall i :: 0 <= i < |inv.args| ==> Abs(inv, inv.args[i]) != "/") ==>
      && ShrinksBy(inv.fs, r.fs, Operands(inv, inv.args))
      && (r.exitCode == 0 ==> forall i :: 0 <= i < |inv.args| ==>
            Exists(inv.fs, Abs(inv, inv.args[i])) && !Exists(r.fs, Abs(inv, inv.args[i])))
  {
    if |inv.args| == 0 then Finish(inv, 1, "rm: missing operand\n")
    else
      var paths := Operands(inv, inv.args);
      var s := RmEach(inv.fs, inv.args, paths, Recursive(inv));
      RmEachExit(inv.fs, inv.args, paths, Recursive(inv));
      RmEachSpec(inv.fs, inv.args, paths, Recursive(inv));
      NotRoot(inv);
      Outcome(s.exitCode, "", s.stdout, s.fs, inv.env, inv.extras.aliases)
  }

  /** Without `-r` a directory operand is refused and the tree is unchanged. */
  lemma RmDirectoryRefused(inv: Invocation)
    requires |inv.args| == 1 && IsDirectory(inv.fs, Abs(inv, inv.args[0])) && !Recursive(inv)
    ensures Rm(inv) == Finish(inv, 1, "rm: cannot remove '" + inv.args[0] + "': Is a directory (use -r for recursive)\n")
  {
    assert Operands(inv, inv.args) == [Abs(inv, inv.args[0])];
  }

  /** `-r` does not recurse: a directory that has entries is refused by `deleteFile`, and the
      tree is unchanged. */
  lemma RmNonEmpty(inv: Invocation)
    requires |inv.args| == 1 && Recursive(inv)
    requires var p := Abs(inv, inv.args[0]);
      p != "/" && IsDirectory(inv.fs, p) && |Locate(inv.fs, p).value.children| > 0
    ensures Rm(inv) == Finish(inv, 1, "rm: " + ("Directory not empty: " + Abs(inv, inv.args[0])) + "\n")
  {
    var p := Abs(inv, inv.args[0]);
    Resolved(inv.fs, inv.args[0], BaseDir(inv));
    assert Operands(inv, inv.args) == [p];
    assert inv.args == [inv.args[0]];
    RmEachNonEmpty(inv.fs, inv.args[0], p);
  }

  lemma RmEachNonEmpty(fs: FS, name: string, p: string)
    requires Target(fs, p) != [] && IsDirectory(fs, p) && |Locate(fs, p).value.children| > 0
    ensures RmEach(fs, [name], [p], true) == Step(fs, "rm: " + ("Directory not empty: " + p) + "\n", 1)
  {
    NonEmptyNotDeletable(fs, p);
  }

  // ---------------------------------------------------------------------------
  // cp

  /** `cp SRC DEST`: copies one file's content; directories and missing sources are refused. */
  function Cp(inv: Invocation): (r: Outcome)
    ensures r.env == inv.env && r.aliases == inv.extras.aliases && r.output == ""
    ensures r.exitCode == 0 || r.exitCode == 1
    ensures r.exitCode == 1 ==> r.fs == inv.fs
    ensures |inv.args| < 2 ==> r == Finish(inv, 1, "cp: missing source or destination operand\n")
    ensures |inv.args| >= 2 ==>
      var src := Abs(inv, inv.args[0]);
      && (r.exitCode == 0 ==> IsFile(inv.fs, src))
      && (!Exists(inv.fs, src) ==>
            r.stdout == "cp: cannot stat '" + inv.args[0] + "': No such file or directory\n")
      && (IsDirectory(inv.fs, src) ==>
            r.stdout == "cp: -r not specified; omitting directory '" + inv.args[0] + "'\n")
  {
    if |inv.args| < 2 then Finish(inv, 1, "cp: missing source or destination operand\n")
    else
      var src := Abs(inv, inv.args[0]);
      var dst := Abs(inv, inv.args[1]);
      if !Exists(inv.fs, src) then
        Finish(inv, 1, "cp: cannot stat '" + inv.args[0] + "': No such file or directory\n")
      else if IsDirectory(inv.fs, src) then
        Finish(inv, 1, "cp: -r not specified; omitting directory '" + inv.args[0] + "'\n")
      else
        match WriteFile(inv.fs, dst, Locate(inv.fs, src).value.content, inv.now)
        case Err(e) => Finish(inv, 1, "cp: " + e + "\n")
        case Ok(fs1) => Outcome(0, "", "", fs1, inv.env, inv.extras.aliases)
  }

  /** After a successful `cp`, the destination reads as the source did, the source is
      untouched, and nothing else was removed. */
  lemma CpCopies(inv: Invocation)
    requires |inv.args| >= 2 && Cp(inv).exitCode == 0 && Abs(inv, inv.args[1]) != "/"
    ensures var src := Abs(inv, inv.args[0]);
      var dst := Abs(inv, inv.args[1]);
      var fs' := Cp(inv).fs;
      && ReadFile(fs', dst) == ReadFile(inv.fs, src)
      && (src != dst ==> Locate(fs', src) == Locate(inv.fs, src))
      && KeepsAll(inv.fs, fs')
  {
    var src := Abs(inv, inv.args[0]);
    var dst := Abs(inv, inv.args[1]);
    Resolved(inv.fs, inv.args[1], BaseDir(inv));
    DistinctResolved(inv.fs, inv.args[0], inv.args[1], BaseDir(inv));
    assert Cp(inv).fs == WriteFile(inv.fs, dst, Locate(inv.fs, src).value.content, inv.now).value;
    Copied(inv.fs, src, dst, inv.now);
  }

  /** The filesystem half of `cp`. */
  lemma Copied(fs: FS, src: string, dst: string, now: nat)
    requires IsFile(fs, src) && Target(fs, dst) != []
    requires Target(fs, src) == Target(fs, dst) ==> src == dst
    requires WriteFile(fs, dst, Locate(fs, src).value.content, now).Ok?
    ensures var fs' := WriteFile(fs, dst, Locate(fs, src).value.content, now).value;
      && ReadFile(fs', dst) == ReadFile(fs, src)
      && (src != dst ==> Locate(fs', src) == Locate(fs, src))
      && KeepsAll(fs, fs')
  {
    var content := Locate(fs, src).value.content;
    WriteFileReadBack(fs, dst, content, now);
    WriteKeepsAll(fs, dst, content, now);
    if src != dst {
      WriteFileAway(fs, dst, content, now, src);
    }
  }

  /** Copying onto an existing directory fails with `writeFile`'s message and changes nothing. */
  lemma CpIntoDirectory(inv: Invocation)
    requires |inv.args| >= 2
    requires IsFile(inv.fs, Abs(inv, inv.args[0]))
    requires IsDirectory(inv.fs, Abs(inv, inv.args[1])) && Abs(inv, inv.args[1]) != "/"
    ensures Cp(inv) == Finish(inv, 1, "cp: " + ("Cannot write to directory: " + Abs(inv, inv.args[1])) + "\n")
  {
    var src := Abs(inv, inv.args[0]);
    var dst := Abs(inv, inv.args[1]);
    Resolved(inv.fs, inv.args[1], BaseDir(inv));
    DirectoryNotWritable(inv.fs, dst, Locate(inv.fs, src).value.content, inv.now);
  }

  // ---------------------------------------------------------------------------
  // mv

  /** `mv SRC DEST`: writes the source file's content to the destination, then deletes the
      source; directories are refused. */
  function Mv(inv: Invocation): (r: Outcome)
    ensures r.env == inv.env && r.aliases == inv.extras.aliases && r.output == ""
    ensures r.exitCode == 0 || r.exitCode == 1
    ensures |inv.args| < 2 ==> r == Finish(inv, 1, "mv: missing source or destination operand\n")
    ensures |inv.args| >= 2 ==>
      var src := Abs(inv, inv.args[0]);
      var dst := Abs(inv, inv.args[1]);
      && (r.exitCode == 0 ==> IsFile(inv.fs, src))
      && (!Exists(inv.fs, src) ==>
            r == Finish(inv, 1, "mv: cannot stat '" + inv.args[0] + "': No such file or directory\n"))
      && (IsDirectory(inv.fs, src) ==> r == Finish(inv, 1, "mv: cannot move directories (not implemented)\n"))
      && (IsFile(inv.fs, src) && WriteFile(inv.fs, dst, Locate(inv.fs, src).value.content, inv.now).Err? ==>
            r == Finish(inv, 1, "mv: " + WriteFile(inv.fs, dst, Locate(inv.fs, src).value.content, inv.now).error + "\n"))
  {
    if |inv.args| < 2 then Finish(inv, 1, "mv: missing source or destination operand\n")
    else
      var src := Abs(inv, inv.args[0]);
      var dst := Abs(inv, inv.args[1]);
      if !Exists(inv.fs, src) then
        Finish(inv, 1, "mv: cannot stat '" + inv.args[0] + "': No such file or directory\n")
      else if !IsFile(inv.fs, src) then
        Finish(inv, 1, "mv: cannot move directories (not implemented)\n")
      else
        match WriteFile(inv.fs, dst, Locate(inv.fs, src).value.content, inv.now)
        case Err(e) => Finish(inv, 1, "mv: " + e + "\n")
        case Ok(fs1) =>
          match DeleteFile(fs1, src)
          case Err(e) => Outcome(1, "", "mv: " + e + "\n", fs1, inv.env, inv.extras.aliases)
          case Ok(fs2) => Outcome(0, "", "", fs2, inv.env, inv.extras.aliases)
  }

  /** The write half of a move to another path: the destination holds the text and the source
      is still a file that can be deleted. */
  lemma MvWritten(fs: FS, src: string, dst: string, now: nat)
    requires IsFile(fs, src) && Target(fs, src) != [] && Target(fs, dst) != [] && Target(fs, src) != Target(fs, dst)
    requires WriteFile(fs, dst, Locate(fs, src).value.content, now).Ok?
    ensures var fs1 := WriteFile(fs, dst, Locate(fs, src).value.content, now).value;
      && fs1.cwd == fs.cwd
      && ReadFile(fs1, dst) == ReadFile(fs, src)
      && IsFile(fs1, dst) && IsFile(fs1, src)
      && DeleteFile(fs1, src).Ok?
  {
    var content := Locate(fs, src).value.content;
    var fs1 := WriteFile(fs, dst, content, now).value;
    WriteFileReadBack(fs, dst, content, now);
    WriteFileAway(fs, dst, content, now, src);
    assert Target(fs1, src) == Target(fs, src);
    FileDeletable(fs1, src);
  }

  /** The delete half: the source is gone and the destination untouched. */
  lemma MvDeleted(fs1: FS, src: string, dst: string)
    requires ValidFS(fs1) && IsFile(fs1, dst) && Target(fs1, src) != [] && Target(fs1, src) != Target(fs1, dst)
    requires DeleteFile(fs1, src).Ok?
    ensures var fs2 := DeleteFile(fs1, src).value;
      ValidFS(fs2) && !Exists(fs2, src) && Locate(fs2, dst) == Locate(fs1, dst)
  {
    DeleteFileValid(fs1, src);
    DeleteFileRemoves(fs1, src);
    DeleteFileAway(fs1, src, dst);
  }

  /** A move between two different paths never stops half-way: once the destination is
      written, the source is deleted, and the destination reads as the source did. */
  lemma MvMoves(inv: Invocation)
    requires ValidFS(inv.fs) && |inv.args| >= 2
    requires var src := Abs(inv, inv.args[0]);
      var dst := Abs(inv, inv.args[1]);
      && IsFile(inv.fs, src) && src != dst && dst != "/"
      && WriteFile(inv.fs, dst, Locate(inv.fs, src).value.content, inv.now).Ok?
    ensures var src := Abs(inv, inv.args[0]);
      var dst := Abs(inv, inv.args[1]);
      var r := Mv(inv);
      && r.exitCode == 0 && ValidFS(r.fs)
      && ReadFile(r.fs, dst) == ReadFile(inv.fs, src)
      && !Exists(r.fs, src)
  {
    var src := Abs(inv, inv.args[0]);
    var dst := Abs(inv, inv.args[1]);
    var content := Locate(inv.fs, src).value.content;
    Resolved(inv.fs, inv.args[0], BaseDir(inv));
    Resolved(inv.fs, inv.args[1], BaseDir(inv));
    DistinctResolved(inv.fs, inv.args[0], inv.args[1], BaseDir(inv));
    MvWritten(inv.fs, src, dst, inv.now);
    var fs1 := WriteFile(inv.fs, dst, content, inv.now).value;
    WriteFileValid(inv.fs, dst, content, inv.now);
    assert Target(fs1, src) == Target(inv.fs, src) && Target(fs1, dst) == Target(inv.fs, dst);
    MvDeleted(fs1, src, dst);
  }

  /** `mv a a` loses the file: the write succeeds onto the file itself, then the same path is
      deleted. */
  lemma MvOntoItself(inv: Invocation)
    requires ValidFS(inv.fs) && |inv.args| >= 2
    requires IsFile(inv.fs, Abs(inv, inv.args[0])) && Abs(inv, inv.args[0]) == Abs(inv, inv.args[1])
    ensures Mv(inv).exitCode == 0 && !Exists(Mv(inv).fs, Abs(inv, inv.args[0]))
  {
    var src := Abs(inv, inv.args[0]);
    var content := Locate(inv.fs, src).value.content;
    RootIsDirectory(inv.fs);
    Resolved(inv.fs, inv.args[0], BaseDir(inv));
    FileWritable(inv.fs, src, content, inv.now);
    var fs1 := WriteFile(inv.fs, src, content, inv.now).value;
    WriteFileReadBack(inv.fs, src, content, inv.now);
    WriteFileValid(inv.fs, src, content, inv.now);
    assert Target(fs1, src) == Target(inv.fs, src);
    FileDeletable(fs1, src);
    DeleteFileRemoves(fs1, src);
  }
}
