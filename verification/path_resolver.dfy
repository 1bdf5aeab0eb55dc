/**
 * The path algebra of the virtual filesystem: '/'-separated strings,
 * normalised against an absolute frame rooted at "/".
 */
module PathResolver {
  import opened Strings

  /** Segments a normalised path may hold: non-empty, no '/', neither "." nor "..". */
  predicate CanonicalSegment(s: string) {
    s != "" && s != "." && s != ".." && '/' !in s
  }

  predicate Canonical(segs: seq<string>) {
    forall i :: 0 <= i < |segs| ==> CanonicalSegment(segs[i])
  }

  /** `parts.filter(p => p && p !== '.')`. */
  function DropEmptyAndDot(parts: seq<string>): (r: seq<string>)
    ensures forall i :: 0 <= i < |r| ==> r[i] != "" && r[i] != "." && r[i] in parts
  {
    if |parts| == 0 then []
    else (if parts[0] == "" || parts[0] == "." then [] else [parts[0]]) + DropEmptyAndDot(parts[1..])
  }

  /** `parts.filter(p => p)`. */
  function DropEmpty(parts: seq<string>): (r: seq<string>)
    ensures forall i :: 0 <= i < |r| ==> r[i] != "" && r[i] in parts
  {
    if |parts| == 0 then []
    else (if parts[0] == "" then [] else [parts[0]]) + DropEmpty(parts[1..])
  }

  /** The segment stack of `normalize`: ".." pops (and is absorbed at the root), anything else pushes. */
  function Collapse(acc: seq<string>, parts: seq<string>): seq<string>
    decreases |parts|
  {
    if |parts| == 0 then acc
    else if parts[0] == ".." then Collapse(if |acc| > 0 then acc[..|acc| - 1] else acc, parts[1..])
    else Collapse(acc + [parts[0]], parts[1..])
  }

  /** The segments `normalize` keeps. */
  function NormalSegs(path: string): seq<string> {
    Collapse([], DropEmptyAndDot(Split(path, '/')))
  }

  /** `normalize` first drops one trailing '/' from anything but the root itself. */
  function StripTrailingSlash(path: string): (r: string)
    ensures NormalSegs(r) == NormalSegs(path)
  {
    NormalSegsStrip(path);
    if path != "/" && EndsWith(path, "/") then path[..|path| - 1] else path
  }

  /** `PathResolver.normalize`. */
  function Normalize(path: string): (r: string)
    ensures |r| >= 1 && r[0] == '/'
    ensures r == "/" + Join(NormalSegs(path), "/")
    ensures Canonical(NormalSegs(path))
  {
    NormalSegsCanonical(path);
    var p := StripTrailingSlash(path);
    if p == "" then
      assert NormalSegs(p) == [] by { assert Split(p, '/') == [""]; assert DropEmptyAndDot([""]) == []; }
      "/"
    else "/" + Join(NormalSegs(p), "/")
  }

  /** `PathResolver.resolve`. */
  function Resolve(path: string, cwd: string): (r: string)
    ensures |r| >= 1 && r[0] == '/'
  {
    if StartsWith(path, "/") then Normalize(path)
    else Normalize(if cwd == "/" then "/" + path else cwd + "/" + path)
  }

  /** `PathResolver.dirname`. */
  function Dirname(path: string): string {
    DirOf(Normalize(path))
  }

  /** `PathResolver.basename`. */
  function Basename(path: string): string {
    BaseOf(Normalize(path))
  }

  /** What `dirname` keeps of a normalised path: everything before its last '/', or "/" when
      that '/' is the leading one. */
  function DirOf(n: string): string
    requires |n| >= 1 && n[0] == '/'
  {
    var lastSlash := LastIndexOf(n, '/');
    if lastSlash == 0 then "/" else n[..lastSlash]
  }

  /** What `basename` keeps of a normalised path: everything after its last '/'. */
  function BaseOf(n: string): string {
    var lastSlash := LastIndexOf(n, '/');
    n[lastSlash + 1..]
  }

  /** `PathResolver.join(...paths)`. */
  function PathJoin(paths: seq<string>): string {
    Normalize(Join(paths, "/"))
  }

  /** `PathResolver.isAbsolute`. */
  predicate IsAbsolute(path: string) {
    StartsWith(path, "/")
  }

  /** Length of the longest common prefix of two segment lists. */
  function CommonPrefixLength(a: seq<string>, b: seq<string>): (i: nat)
    ensures i <= |a| && i <= |b|
    ensures a[..i] == b[..i]
    ensures i < |a| && i < |b| ==> a[i] != b[i]
  {
    if |a| == 0 || |b| == 0 || a[0] != b[0] then 0
    else
      var k := CommonPrefixLength(a[1..], b[1..]);
      assert a[..k + 1] == [a[0]] + a[1..][..k];
      assert b[..k + 1] == [b[0]] + b[1..][..k];
      k + 1
  }

  function Repeat(x: string, n: nat): (r: seq<string>)
    ensures |r| == n && forall i :: 0 <= i < n ==> r[i] == x
  {
    if n == 0 then [] else [x] + Repeat(x, n - 1)
  }

  /** One ".." per `from` segment past the common prefix, then the rest of `to`. */
  function RelativeParts(fromParts: seq<string>, toParts: seq<string>): seq<string> {
    var i := CommonPrefixLength(fromParts, toParts);
    Repeat("..", |fromParts| - i) + toParts[i..]
  }

  /** `PathResolver.relative`. */
  function Relative(from: string, to: string): string {
    var joined := Join(RelativeParts(DropEmpty(Split(Normalize(from), '/')), DropEmpty(Split(Normalize(to), '/'))), "/");
    if joined == "" then "." else joined
  }

  // ---------------------------------------------------------------------------
  // Algebra of the helpers

  lemma {:induction false} DropEmptyAndDotConcat(a: seq<string>, b: seq<string>)
    ensures DropEmptyAndDot(a + b) == DropEmptyAndDot(a) + DropEmptyAndDot(b)
    decreases |a|
  {
    if |a| == 0 {
      assert a + b == b;
    } else {
      assert (a + b)[1..] == a[1..] + b;
      DropEmptyAndDotConcat(a[1..], b);
    }
  }

  lemma {:induction false} DropEmptyConcat(a: seq<string>, b: seq<string>)
    ensures DropEmpty(a + b) == DropEmpty(a) + DropEmpty(b)
    decreases |a|
  {
    if |a| == 0 {
      assert a + b == b;
    } else {
      assert (a + b)[1..] == a[1..] + b;
      DropEmptyConcat(a[1..], b);
    }
  }

  lemma {:induction false} CollapseConcat(acc: seq<string>, a: seq<string>, b: seq<string>)
    ensures Collapse(acc, a + b) == Collapse(Collapse(acc, a), b)
    decreases |a|
  {
    if |a| == 0 {
      assert a + b == b;
    } else {
      assert (a + b)[1..] == a[1..] + b;
      if a[0] == ".." {
        CollapseConcat(if |acc| > 0 then acc[..|acc| - 1] else acc, a[1..], b);
      } else {
        CollapseConcat(acc + [a[0]], a[1..], b);
      }
    }
  }

  /** Canonical segments are pushed unchanged. */
  lemma {:induction false} CollapseCanonical(acc: seq<string>, a: seq<string>)
    requires Canonical(a)
    ensures Collapse(acc, a) == acc + a
    decreases |a|
  {
    if |a| > 0 {
      CollapseCanonical(acc + [a[0]], a[1..]);
      assert acc + [a[0]] + a[1..] == acc + a;
    }
  }

  /** k ".." segments pop k segments, stopping at the root. */
  lemma {:induction false} CollapseUps(acc: seq<string>, k: nat)
    requires k <= |acc|
    ensures Collapse(acc, Repeat("..", k)) == acc[..|acc| - k]
    decreases k
  {
    if k > 0 {
      assert Repeat("..", k)[1..] == Repeat("..", k - 1);
      CollapseUps(acc[..|acc| - 1], k - 1);
      assert acc[..|acc| - 1][..|acc| - 1 - (k - 1)] == acc[..|acc| - k];
    }
  }

  /** Collapsing slash-free, non-dot, non-empty parts onto canonical segments stays canonical. */
  lemma {:induction false} CollapseStaysCanonical(acc: seq<string>, a: seq<string>)
    requires Canonical(acc)
    requires forall i :: 0 <= i < |a| ==> a[i] != "" && a[i] != "." && '/' !in a[i]
    ensures Canonical(Collapse(acc, a))
    decreases |a|
  {
    if |a| > 0 {
      if a[0] == ".." {
        CollapseStaysCanonical(if |acc| > 0 then acc[..|acc| - 1] else acc, a[1..]);
      } else {
        CollapseStaysCanonical(acc + [a[0]], a[1..]);
      }
    }
  }

  lemma DropEmptyAndDotOfSplit(s: string)
    ensures forall i :: 0 <= i < |DropEmptyAndDot(Split(s, '/'))| ==>
      var p := DropEmptyAndDot(Split(s, '/'))[i]; p != "" && p != "." && '/' !in p
  {
    var parts := Split(s, '/');
    forall i | 0 <= i < |DropEmptyAndDot(parts)|
      ensures '/' !in DropEmptyAndDot(parts)[i]
    {
      var p := DropEmptyAndDot(parts)[i];
      assert p in parts;
      var j :| 0 <= j < |parts| && parts[j] == p;
    }
  }

  lemma NormalSegsCanonical(path: string)
    ensures Canonical(NormalSegs(path))
  {
    DropEmptyAndDotOfSplit(path);
    CollapseStaysCanonical([], DropEmptyAndDot(Split(path, '/')));
  }

  lemma NormalSegsStrip(path: string)
    ensures path != "/" && EndsWith(path, "/") ==> NormalSegs(path[..|path| - 1]) == NormalSegs(path)
  {
    if path != "/" && EndsWith(path, "/") {
      var p := path[..|path| - 1];
      assert path == p + ['/'] + "";
      SplitConcatSep(p, "", '/');
      DropEmptyAndDotConcat(Split(p, '/'), [""]);
      assert DropEmptyAndDot([""]) == [];
      assert DropEmptyAndDot(Split(path, '/')) == DropEmptyAndDot(Split(p, '/'));
    }
  }

  /** `normalize` of "/" followed by canonical segments is the identity on those segments. */
  lemma {:induction false} NormalSegsOfCanonical(segs: seq<string>)
    requires Canonical(segs)
    ensures NormalSegs("/" + Join(segs, "/")) == segs
  {
    var s := "/" + Join(segs, "/");
    assert s == "" + ['/'] + Join(segs, "/");
    SplitConcatSep("", Join(segs, "/"), '/');
    if |segs| == 0 {
      assert Split(s, '/') == [""] + [""];
      assert DropEmptyAndDot([""] + [""]) == [];
    } else {
      SplitJoin(segs, '/');
      DropEmptyAndDotConcat([""], segs);
      DropEmptyAndDotCanonical(segs);
      assert DropEmptyAndDot(Split(s, '/')) == segs;
      CollapseCanonical([], segs);
    }
  }

  lemma {:induction false} DropEmptyAndDotCanonical(segs: seq<string>)
    requires Canonical(segs)
    ensures DropEmptyAndDot(segs) == segs
    decreases |segs|
  {
    if |segs| > 0 {
      DropEmptyAndDotCanonical(segs[1..]);
      HeadTail(segs);
    }
  }

  /** The segments of `a + "/" + b`: those of `a`, then `b`'s parts applied on top. */
  lemma NormalSegsOfConcat(a: string, b: string)
    ensures NormalSegs(a + "/" + b) == Collapse(NormalSegs(a), DropEmptyAndDot(Split(b, '/')))
  {
    assert a + "/" + b == a + ['/'] + b;
    SplitConcatSep(a, b, '/');
    DropEmptyAndDotConcat(Split(a, '/'), Split(b, '/'));
    CollapseConcat([], DropEmptyAndDot(Split(a, '/')), DropEmptyAndDot(Split(b, '/')));
  }

  /** Two canonical segment lists give the same normalised path exactly when they are equal. */
  lemma CanonicalJoinInjective(a: seq<string>, b: seq<string>)
    requires Canonical(a) && Canonical(b)
    ensures "/" + Join(a, "/") == "/" + Join(b, "/") <==> a == b
  {
    if "/" + Join(a, "/") == "/" + Join(b, "/") {
      NormalSegsOfCanonical(a);
      NormalSegsOfCanonical(b);
    }
  }

  // ---------------------------------------------------------------------------
  // Properties of normalize

  /** `normalize` is idempotent. */
  lemma NormalizeIdempotent(path: string)
    ensures Normalize(Normalize(path)) == Normalize(path)
  {
    NormalSegsCanonical(path);
    NormalSegsOfCanonical(NormalSegs(path));
  }

  /** The segments of a normalised path are those `NormalSegs` computes, and all canonical. */
  lemma NormalizeSegments(path: string)
    ensures NormalSegs(Normalize(path)) == NormalSegs(path)
    ensures Canonical(NormalSegs(path))
    ensures Normalize(path) == "/" <==> NormalSegs(path) == []
    ensures Normalize(path) != "/" ==> Split(Normalize(path), '/') == [""] + NormalSegs(path)
  {
    var segs := NormalSegs(path);
    NormalSegsCanonical(path);
    NormalSegsOfCanonical(segs);
    if segs != [] {
      assert Join(segs, "/") != "" by { JoinHead(segs, "/"); }
      assert Normalize(path) == "" + ['/'] + Join(segs, "/");
      SplitConcatSep("", Join(segs, "/"), '/');
      SplitJoin(segs, '/');
    }
  }

  /** Relative input is read as root-relative. */
  lemma NormalizeRootRelative(path: string)
    ensures Normalize(path) == Normalize("/" + path)
  {
    NormalSegsOfConcat("", path);
    assert "" + "/" + path == "/" + path;
    assert NormalSegs("") == [];
  }

  /** ".." pops one segment and is absorbed at the root. */
  lemma NormalizeDotDot(path: string)
    ensures NormalSegs(path + "/..") ==
      (var s := NormalSegs(path); if |s| > 0 then s[..|s| - 1] else s)
  {
    assert path + "/.." == path + "/" + "..";
    NormalSegsOfConcat(path, "..");
    SplitNoSep("..", '/');
    assert DropEmptyAndDot([".."]) == [".."];
    var s := NormalSegs(path);
    assert Collapse(s, [".."]) == Collapse(if |s| > 0 then s[..|s| - 1] else s, []);
  }

  /** The empty path and a path of only dots normalise to the root. */
  lemma NormalizeToRoot()
    ensures Normalize("") == "/"
    ensures Normalize("/.") == "/"
    ensures Normalize("/..") == "/"
  {
    assert Split("", '/') == [""];
    assert DropEmptyAndDot([""]) == [];
    NormalSegsOfConcat("", ".");
    SplitNoSep(".", '/');
    assert DropEmptyAndDot(["."]) == [];
    assert "" + "/" + "." == "/.";
    NormalizeDotDot("");
    assert "" + "/.." == "/..";
  }

  // ---------------------------------------------------------------------------
  // Properties of resolve, dirname, basename, join, relative

  /** An absolute path resolves to its normal form whatever the working directory. */
  lemma ResolveAbsolute(path: string, cwd: string, cwd': string)
    requires IsAbsolute(path)
    ensures Resolve(path, cwd) == Normalize(path) == Resolve(path, cwd')
  {
  }

  /** A relative path is appended to the working directory; a "/" cwd gives no doubled slash. */
  lemma ResolveRelative(path: string, cwd: string)
    requires !IsAbsolute(path)
    ensures Resolve(path, cwd) == Normalize(cwd + "/" + path)
    ensures NormalSegs(Resolve(path, cwd)) == Collapse(NormalSegs(cwd), DropEmptyAndDot(Split(path, '/')))
  {
    NormalSegsOfConcat(cwd, path);
    if cwd == "/" {
      NormalSegsOfConcat("", path);
      assert "" + "/" + path == "/" + path;
      assert Split("/", '/') == [""] + [""] by {
        assert "/" == "" + ['/'] + "";
        SplitConcatSep("", "", '/');
      }
      assert NormalSegs("/") == [] == NormalSegs("");
    }
    NormalizeSegments(cwd + "/" + path);
  }

  /** The root's dirname is the root and its basename empty. */
  lemma DirOfRoot()
    ensures DirOf("/") == "/" && BaseOf("/") == ""
  {
    assert "/" == "" + ['/'] + "";
    LastIndexOfSplit("", "");
  }

  /** "/x" for a canonical segment x: dirname "/", basename x. */
  lemma DirOfOneSegment(s: seq<string>)
    requires Canonical(s) && |s| == 1
    ensures DirOf("/" + Join(s, "/")) == "/" + Join(s[..0], "/")
    ensures BaseOf("/" + Join(s, "/")) == s[0]
  {
    assert CanonicalSegment(s[0]);
    assert "/" + Join(s, "/") == "" + ['/'] + s[0];
    LastIndexOfSplit("", s[0]);
  }

  /** "/a/.../y/z" for canonical segments: dirname "/a/.../y", basename z. */
  lemma DirOfManySegments(s: seq<string>)
    requires Canonical(s) && |s| > 1
    ensures DirOf("/" + Join(s, "/")) == "/" + Join(s[..|s| - 1], "/")
    ensures BaseOf("/" + Join(s, "/")) == s[|s| - 1]
  {
    var init := s[..|s| - 1];
    var last := s[|s| - 1];
    assert CanonicalSegment(last);
    InitLast(s);
    JoinAppend(init, last, "/");
    var a := "/" + Join(init, "/");
    assert "/" + Join(s, "/") == a + ['/'] + last;
    LastIndexOfSplit(a, last);
  }

  /** The dirname of a normal form holds all but its last segment. */
  lemma InitSegments(s: seq<string>)
    requires Canonical(s) && |s| > 0
    ensures NormalSegs("/" + Join(s[..|s| - 1], "/")) == s[..|s| - 1]
  {
    assert Canonical(s[..|s| - 1]);
    NormalSegsOfCanonical(s[..|s| - 1]);
  }

  /** dirname/basename split the normalised path at its last '/'. */
  lemma DirnameBasename(path: string)
    ensures var s := NormalSegs(path);
      && (|s| == 0 ==> Dirname(path) == "/" && Basename(path) == "")
      && (|s| > 0 ==>
            && Dirname(path) == "/" + Join(s[..|s| - 1], "/")
            && Basename(path) == s[|s| - 1]
            && NormalSegs(Dirname(path)) == s[..|s| - 1])
  {
    var s := NormalSegs(path);
    NormalSegsCanonical(path);
    if |s| == 0 {
      assert Join(s, "/") == "";
      DirOfRoot();
    } else {
      if |s| == 1 {
        DirOfOneSegment(s);
      } else {
        DirOfManySegments(s);
      }
      InitSegments(s);
    }
  }

  lemma LastIndexOfSplit(a: string, b: string)
    requires '/' !in b
    ensures LastIndexOf(a + ['/'] + b, '/') == |a|
    ensures (a + ['/'] + b)[..|a|] == a && (a + ['/'] + b)[|a| + 1..] == b
  {
    var s := a + ['/'] + b;
    assert s[|a|] == '/';
    assert s[..|a|] == a;
    assert s[|a| + 1..] == b;
    LastIndexOfAt(s, '/', |a|);
  }

  /** "/" + "/" + "" is the root again. */
  lemma RootSlashEmpty()
    ensures NormalSegs("/" + "/" + "") == []
  {
    NormalSegsOfConcat("/", "");
    assert Split("/", '/') == [""] + [""] by {
      assert "/" == "" + ['/'] + "";
      SplitConcatSep("", "", '/');
    }
    assert Split("", '/') == [""];
    assert DropEmptyAndDot([""]) == [];
  }

  /** Putting the last segment back after the others gives all the segments. */
  lemma InitSlashLast(s: seq<string>)
    requires Canonical(s) && |s| > 0
    ensures NormalSegs("/" + Join(s[..|s| - 1], "/") + "/" + s[|s| - 1]) == s
  {
    var init := s[..|s| - 1];
    var b := s[|s| - 1];
    assert CanonicalSegment(b);
    NormalSegsOfConcat("/" + Join(init, "/"), b);
    InitSegments(s);
    SplitNoSep(b, '/');
    assert DropEmptyAndDot([b]) == [b];
    assert Collapse(init, [b]) == Collapse(init + [b], []);
    InitLast(s);
  }

  lemma DirnameSlashBasenameSegs(path: string)
    ensures NormalSegs(Dirname(path) + "/" + Basename(path)) == NormalSegs(path)
  {
    var s := NormalSegs(path);
    DirnameBasename(path);
    if |s| == 0 {
      RootSlashEmpty();
    } else {
      InitSlashLast(s);
    }
  }

  /** Joining the dirname and basename of a path gives back its normal form. */
  lemma JoinDirnameBasename(path: string)
    ensures PathJoin([Dirname(path), Basename(path)]) == Normalize(path)
  {
    var d := Dirname(path);
    var b := Basename(path);
    DirnameSlashBasenameSegs(path);
    assert Join([d, b], "/") == d + "/" + b;
    assert Normalize(d + "/" + b) == "/" + Join(NormalSegs(path), "/");
  }

  lemma DropEmptyOfNormalize(p: string)
    ensures DropEmpty(Split(Normalize(p), '/')) == NormalSegs(p)
  {
    NormalizeSegments(p);
    var s := NormalSegs(p);
    if s == [] {
      assert Normalize(p) == "" + ['/'] + "";
      SplitConcatSep("", "", '/');
      assert Split(Normalize(p), '/') == [""] + [""];
      assert DropEmpty([""] + [""]) == [];
    } else {
      DropEmptyConcat([""], s);
      DropEmptyCanonical(s);
    }
  }

  lemma {:induction false} DropEmptyCanonical(segs: seq<string>)
    requires Canonical(segs)
    ensures DropEmpty(segs) == segs
    decreases |segs|
  {
    if |segs| > 0 {
      DropEmptyCanonical(segs[1..]);
      HeadTail(segs);
    }
  }

  /** The parts of a relative path: "..", or canonical segments; none only for equal paths. */
  lemma RelativePartsShape(f: seq<string>, t: seq<string>)
    requires Canonical(t)
    ensures var parts := RelativeParts(f, t);
      && (forall k :: 0 <= k < |parts| ==> parts[k] != "" && parts[k] != "." && '/' !in parts[k])
      && (parts == [] <==> f == t)
  {
    var i := CommonPrefixLength(f, t);
    var up := Repeat("..", |f| - i);
    var parts := RelativeParts(f, t);
    assert parts == up + t[i..];
    forall k | 0 <= k < |parts|
      ensures parts[k] != "" && parts[k] != "." && '/' !in parts[k]
    {
      if k < |up| {
        assert parts[k] == "..";
      } else {
        assert parts[k] == t[i + k - |up|];
        assert CanonicalSegment(t[i + k - |up|]);
      }
    }
    if parts == [] {
      assert f == f[..i] == t[..i] == t;
    }
  }

  /** Applying the parts of a relative path to `f` yields `t`. */
  lemma CollapseRelativeParts(f: seq<string>, t: seq<string>)
    requires Canonical(t)
    ensures Collapse(f, RelativeParts(f, t)) == t
  {
    var i := CommonPrefixLength(f, t);
    CollapseConcat(f, Repeat("..", |f| - i), t[i..]);
    CollapseUps(f, |f| - i);
    assert Canonical(t[i..]);
    CollapseCanonical(f[..i], t[i..]);
    assert f[..i] + t[i..] == t[..i] + t[i..] == t;
  }

  /** `relative` is "." exactly when both paths normalise to the same place. */
  lemma RelativeDotIffSame(from: string, to: string)
    ensures Relative(from, to) == "." <==> Normalize(from) == Normalize(to)
  {
    DropEmptyOfNormalize(from);
    DropEmptyOfNormalize(to);
    NormalSegsCanonical(from);
    NormalSegsCanonical(to);
    var f := NormalSegs(from);
    var t := NormalSegs(to);
    var parts := RelativeParts(f, t);
    RelativePartsShape(f, t);
    CanonicalJoinInjective(f, t);
    if |parts| > 0 {
      JoinHead(parts, "/");
      assert Join(parts, "/") != "" && Join(parts, "/") != ".";
    }
  }

  lemma RelativeSameResolves(from: string, to: string)
    requires NormalSegs(from) == NormalSegs(to)
    ensures NormalSegs(Resolve(Relative(from, to), Normalize(from))) == NormalSegs(to)
  {
    DropEmptyOfNormalize(from);
    DropEmptyOfNormalize(to);
    NormalSegsCanonical(to);
    RelativePartsShape(NormalSegs(from), NormalSegs(to));
    assert Relative(from, to) == ".";
    ResolveRelative(".", Normalize(from));
    SplitNoSep(".", '/');
    assert DropEmptyAndDot(["."]) == [];
    NormalizeSegments(from);
  }

  lemma RelativeOtherResolves(from: string, to: string)
    requires NormalSegs(from) != NormalSegs(to)
    ensures NormalSegs(Resolve(Relative(from, to), Normalize(from))) == NormalSegs(to)
  {
    DropEmptyOfNormalize(from);
    DropEmptyOfNormalize(to);
    NormalSegsCanonical(to);
    var f := NormalSegs(from);
    var t := NormalSegs(to);
    var parts := RelativeParts(f, t);
    RelativePartsShape(f, t);
    JoinHead(parts, "/");
    assert Relative(from, to) == Join(parts, "/");
    ResolveParts(parts, Normalize(from));
    NormalizeSegments(from);
    CollapseRelativeParts(f, t);
  }

  /** Plain segments joined by '/' and resolved against a directory walk down from it. */
  lemma ResolveParts(parts: seq<string>, cwd: string)
    requires parts != []
    requires forall k :: 0 <= k < |parts| ==> parts[k] != "" && parts[k] != "." && '/' !in parts[k]
    ensures NormalSegs(Resolve(Join(parts, "/"), cwd)) == Collapse(NormalSegs(cwd), parts)
  {
    var r := Join(parts, "/");
    JoinHead(parts, "/");
    assert r[0] == parts[0][0] != '/';
    ResolveRelative(r, cwd);
    SplitJoin(parts, '/');
    DropEmptyAndDotKeeps(parts);
  }

  /** Resolving `relative(from, to)` against `from` leads back to `to`. */
  lemma RelativeRoundTrip(from: string, to: string)
    ensures Resolve(Relative(from, to), Normalize(from)) == Normalize(to)
  {
    if NormalSegs(from) == NormalSegs(to) {
      RelativeSameResolves(from, to);
    } else {
      RelativeOtherResolves(from, to);
    }
    ResolveRooted(Relative(from, to), Normalize(from));
  }

  /** A resolved path is the rooted join of its own segments. */
  lemma ResolveRooted(path: string, cwd: string)
    ensures Resolve(path, cwd) == "/" + Join(NormalSegs(Resolve(path, cwd)), "/")
  {
    var arg := if StartsWith(path, "/") then path else if cwd == "/" then "/" + path else cwd + "/" + path;
    assert Resolve(path, cwd) == Normalize(arg);
    NormalizeSegments(arg);
  }

  lemma {:induction false} DropEmptyAndDotKeeps(parts: seq<string>)
    requires forall k :: 0 <= k < |parts| ==> parts[k] != "" && parts[k] != "."
    ensures DropEmptyAndDot(parts) == parts
    decreases |parts|
  {
    if |parts| > 0 {
      DropEmptyAndDotKeeps(parts[1..]);
      HeadTail(parts);
    }
  }
}
