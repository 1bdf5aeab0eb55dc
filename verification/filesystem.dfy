/**
 * The virtual filesystem: a tree rooted at "/", a current directory, and
 * the path-level operations on them. Every path argument is resolved
 * against the current directory; error messages quote the argument as given.
 * Mutating operations take the clock reading `now` for their timestamps.
 */
module Filesystem {
  import opened Wrappers
  import opened Strings
  import opened PathResolver
  import opened FileTree

  datatype FS = FS(root: Node, cwd: string)

  const DirPermissions := "drwxr-xr-x"
  const FilePermissions := "-rw-r--r--"

  /** `createNode(name, 'file', content)`: size is the content's UTF-16 length. */
  function NewFile(name: string, content: string, now: nat): Node {
    File(name, content, Meta(now, now, Utf16Length(content), FilePermissions, false))
  }

  /** `createNode(name, 'directory')`. */
  function NewDir(name: string, now: nat): Node {
    Dir(name, [], Meta(now, now, 0, DirPermissions, false))
  }

  /** The constructor's state: an empty root directory and cwd "/". */
  function Initial(now: nat): FS {
    FS(NewDir("/", now), "/")
  }

  /** The root is a directory and every directory's entries have distinct names. */
  predicate ValidFS(fs: FS) {
    fs.root.Dir? && Valid(fs.root)
  }

  /** `getNode`: the root for "/", otherwise a walk over the normalised path's segments. */
  function GetNode(root: Node, path: string): Option<Node> {
    var normalized := Normalize(path);
    if normalized == "/" then Some(root)
    else Walk(root, DropEmpty(Split(normalized, '/')))
  }

  /** `resolvePath(path, cwd)`: an empty `cwdArg` stands for an omitted one. */
  function ResolvePathFrom(fs: FS, path: string, cwdArg: string): string {
    Resolve(path, if cwdArg != "" then cwdArg else fs.cwd)
  }

  function ResolvePath(fs: FS, path: string): string {
    ResolvePathFrom(fs, path, "")
  }

  function GetCwd(fs: FS): string {
    fs.cwd
  }

  /** `setCwd`: stores the normalised path without checking that it exists. */
  function SetCwd(fs: FS, path: string): (r: FS)
    ensures r.root == fs.root
    ensures |r.cwd| >= 1 && r.cwd[0] == '/' && Normalize(r.cwd) == r.cwd
  {
    NormalizeIdempotent(path);
    fs.(cwd := Normalize(path))
  }

  /** The node a path argument names. */
  function Locate(fs: FS, path: string): Option<Node> {
    GetNode(fs.root, ResolvePath(fs, path))
  }

  /** The segments of the resolved path. */
  function Target(fs: FS, path: string): seq<string> {
    NormalSegs(ResolvePath(fs, path))
  }

  /** Where a mutation lands: the parent directory's path and the entry's name. */
  datatype Site = Site(dirPath: string, base: string)

  function SiteOf(fs: FS, path: string): Site {
    var resolved := ResolvePath(fs, path);
    Site(Dirname(resolved), Basename(resolved))
  }

  function ReadFile(fs: FS, path: string): Result<string> {
    match Locate(fs, path)
    case None => Err("File not found: " + path)
    case Some(node) => if node.File? then Ok(node.content) else Err("Not a file: " + path)
  }

  /** The tree with the directory at `dirPath` given new children. */
  function WithChildren(fs: FS, dirPath: string, parent: Node, children: seq<Child>): FS
    requires GetNode(fs.root, dirPath) == Some(parent) && parent.Dir?
  {
    GetNodeWalk(fs.root, dirPath);
    fs.(root := ReplaceAt(fs.root, NormalSegs(dirPath), parent.(children := children)))
  }

  /** An overwritten file keeps its name, creation time and permissions. */
  function Rewritten(existing: Node, content: string, now: nat): Node
    requires existing.File?
  {
    existing.(content := content, meta := existing.meta.(modified := now, size := Utf16Length(content)))
  }

  function WriteFile(fs: FS, path: string, content: string, now: nat): Result<FS> {
    WriteAt(fs, path, SiteOf(fs, path), content, now)
  }

  function WriteAt(fs: FS, path: string, site: Site, content: string, now: nat): Result<FS> {
    match GetNode(fs.root, site.dirPath)
    case None => Err("Parent directory does not exist: " + path)
    case Some(parent) =>
      if parent.File? then Err("Parent is not a directory: " + path)
      else match FindChild(parent.children, site.base)
        case Some(existing) =>
          if existing.Dir? then Err("Cannot write to directory: " + path)
          else Ok(WithChildren(fs, site.dirPath, parent, SetChild(parent.children, site.base, Rewritten(existing, content, now))))
        case None =>
          Ok(WithChildren(fs, site.dirPath, parent, SetChild(parent.children, site.base, NewFile(site.base, content, now))))
  }

  function DeleteFile(fs: FS, path: string): Result<FS> {
    DeleteAt(fs, path, SiteOf(fs, path))
  }

  function DeleteAt(fs: FS, path: string, site: Site): Result<FS> {
    match GetNode(fs.root, site.dirPath)
    case None => Err("Parent directory does not exist: " + path)
    case Some(parent) =>
      if parent.File? then Err("Parent directory does not exist: " + path)
      else match FindChild(parent.children, site.base)
        case None => Err("File not found: " + path)
        case Some(node) =>
          if node.Dir? && |node.children| > 0 then Err("Directory not empty: " + path)
          else Ok(WithChildren(fs, site.dirPath, parent, RemoveChild(parent.children, site.base)))
  }

  function ReadDir(fs: FS, path: string): Result<seq<string>> {
    match Locate(fs, path)
    case None => Err("Directory not found: " + path)
    case Some(node) => if node.Dir? then Ok(ChildKeys(node.children)) else Err("Not a directory: " + path)
  }

  function CreateDir(fs: FS, path: string, now: nat): Result<FS> {
    CreateAt(fs, path, SiteOf(fs, path), now)
  }

  function CreateAt(fs: FS, path: string, site: Site, now: nat): Result<FS> {
    match GetNode(fs.root, site.dirPath)
    case None => Err("Parent directory does not exist: " + path)
    case Some(parent) =>
      if parent.File? then Err("Parent is not a directory: " + path)
      else if site.base in ChildKeys(parent.children) then Err("File or directory already exists: " + path)
      else Ok(WithChildren(fs, site.dirPath, parent, SetChild(parent.children, site.base, NewDir(site.base, now))))
  }

  predicate Exists(fs: FS, path: string) {
    Locate(fs, path).Some?
  }

  function Stat(fs: FS, path: string): Result<Meta> {
    match Locate(fs, path)
    case None => Err("File not found: " + path)
    case Some(node) => Ok(node.meta)
  }

  predicate IsDirectory(fs: FS, path: string) {
    Locate(fs, path).Some? && Locate(fs, path).value.Dir?
  }

  predicate IsFile(fs: FS, path: string) {
    Locate(fs, path).Some? && Locate(fs, path).value.File?
  }

  datatype NodeType = FileType | DirectoryType

  function GetNodeType(fs: FS, path: string): (r: Option<NodeType>)
    ensures r == Some(FileType) <==> IsFile(fs, path)
    ensures r == Some(DirectoryType) <==> IsDirectory(fs, path)
    ensures r.None? <==> !Exists(fs, path)
  {
    match Locate(fs, path)
    case None => None
    case Some(node) => if node.File? then Some(FileType) else Some(DirectoryType)
  }

  const DefaultDirectories := ["/home", "/bin", "/etc", "/tmp"]

  /** `if (!exists(dir)) createDir(dir)`. */
  function EnsureDir(fs: FS, dir: string, now: nat): Result<FS> {
    if Exists(fs, dir) then Ok(fs) else CreateDir(fs, dir, now)
  }

  function EnsureDirs(fs: FS, dirs: seq<string>, now: nat): Result<FS>
    decreases |dirs|
  {
    if |dirs| == 0 then Ok(fs)
    else match EnsureDir(fs, dirs[0], now)
      case Err(e) => Err(e)
      case Ok(fs1) => EnsureDirs(fs1, dirs[1..], now)
  }

  /** `initializeDefaultStructure` (the final persist is `Persist` in FsStorage). */
  function InitializeDefaultStructure(fs: FS, now: nat): Result<FS> {
    match EnsureDirs(fs, DefaultDirectories, now)
    case Err(e) => Err(e)
    case Ok(fs1) => Ok(SetCwd(fs1, "/home"))
  }


  // ---------------------------------------------------------------------------
  // Lookup

  lemma GetNodeWalk(root: Node, path: string)
    ensures GetNode(root, path) == Walk(root, NormalSegs(path))
  {
    NormalizeSegments(path);
    if Normalize(path) != "/" {
      DropEmptyOfNormalize(path);
    }
  }

  lemma LocateWalk(fs: FS, path: string)
    ensures Locate(fs, path) == Walk(fs.root, Target(fs, path))
  {
    GetNodeWalk(fs.root, ResolvePath(fs, path));
  }

  /** A normalised absolute path resolves to itself from any cwd. */
  lemma ResolveOfNormal(fs: FS, p: string)
    requires |p| > 0 && p[0] == '/' && Normalize(p) == p
    ensures ResolvePath(fs, p) == p
  {
    assert StartsWith(p, "/");
  }

  /** The parent of a path with at least one segment: its segments are all but the last, and the
      entry name is the last. */
  lemma SiteSegments(resolved: string)
    requires NormalSegs(resolved) != []
    ensures var s := NormalSegs(resolved);
      && NormalSegs(Dirname(resolved)) == s[..|s| - 1]
      && Basename(resolved) == s[|s| - 1]
  {
    DirnameBasename(resolved);
  }

  /** The parent path of a resolved path is itself normalised and absolute. */
  lemma DirnameNormal(resolved: string)
    ensures var d := Dirname(resolved); |d| > 0 && d[0] == '/' && Normalize(d) == d
  {
    var s := NormalSegs(resolved);
    DirnameBasename(resolved);
    NormalizeSegments(resolved);
    if |s| == 0 {
      NormalizeIdempotent("/");
      NormalSegsOfCanonical([]);
      assert Normalize("/") == "/" + Join([], "/");
    } else {
      var init := s[..|s| - 1];
      assert Canonical(init) by {
        forall i | 0 <= i < |init| ensures CanonicalSegment(init[i]) {
          assert init[i] == s[i];
        }
      }
      NormalSegsOfCanonical(init);
    }
  }

  /** The facts every mutation lemma needs about where its target lives. */
  lemma SiteFacts(fs: FS, path: string)
    requires Target(fs, path) != []
    ensures var site := SiteOf(fs, path);
      var t := Target(fs, path);
      && t == NormalSegs(site.dirPath) + [site.base]
      && GetNode(fs.root, site.dirPath) == Walk(fs.root, NormalSegs(site.dirPath))
      && Locate(fs, path) == Walk(fs.root, t)
  {
    var resolved := ResolvePath(fs, path);
    var site := SiteOf(fs, path);
    var t := Target(fs, path);
    assert t == NormalSegs(resolved);
    SiteSegments(resolved);
    assert site.dirPath == Dirname(resolved) && site.base == Basename(resolved);
    assert NormalSegs(site.dirPath) == t[..|t| - 1];
    InitLast(t);
    GetNodeWalk(fs.root, site.dirPath);
    LocateWalk(fs, path);
  }

  /** The parent path names the parent directory from any cwd. */
  lemma SiteParent(fs: FS, path: string, fs': FS)
    ensures var d := SiteOf(fs, path).dirPath; ResolvePath(fs', d) == d
  {
    DirnameNormal(ResolvePath(fs, path));
    ResolveOfNormal(fs', SiteOf(fs, path).dirPath);
  }

  /** Root always exists and is a directory, whatever the cwd. */
  lemma RootIsDirectory(fs: FS)
    requires ValidFS(fs)
    ensures ResolvePath(fs, "/") == "/"
    ensures Locate(fs, "/") == Some(fs.root)
    ensures Exists(fs, "/") && IsDirectory(fs, "/") && !IsFile(fs, "/")
  {
    NormalizeToRoot();
    NormalizeRootRelative("");
    assert "/" + "" == "/";
    ResolveOfNormal(fs, "/");
  }

  /** `exists`, `isFile` and `isDirectory` agree: a node is a file or a directory, never both. */
  lemma FileOrDirectory(fs: FS, path: string)
    ensures !(IsFile(fs, path) && IsDirectory(fs, path))
    ensures Exists(fs, path) <==> IsFile(fs, path) || IsDirectory(fs, path)
  {
  }

  /** An absolute path names the same node whatever the cwd. */
  lemma AbsoluteIgnoresCwd(fs: FS, fs': FS, path: string)
    requires fs.root == fs'.root && StartsWith(path, "/")
    ensures Locate(fs, path) == Locate(fs', path)
  {
  }

  // ---------------------------------------------------------------------------
  // Updating one directory's children

  /** Paths that neither lead to nor extend the target. */
  predicate Away(q: seq<string>, target: seq<string>) {
    !(q <= target) && !(target <= q)
  }

  lemma ExtensionPrefix<T>(a: seq<T>, x: T, q: seq<T>)
    requires a <= q && !(q <= a + [x]) && !(a + [x] <= q)
    ensures |q| > |a| && q[|a|] != x
  {
    assert |q| == |a| ==> q == a;
  }

  /** Replacing a directory's children, seen along the path to it and at one entry. */
  lemma ReplaceChildWalk(root: Node, dirSegs: seq<string>, parent: Node, children: seq<Child>, base: string)
    requires Walk(root, dirSegs) == Some(parent) && parent.Dir?
    ensures Walk(ReplaceAt(root, dirSegs, parent.(children := children)), dirSegs) == Some(parent.(children := children))
    ensures Walk(ReplaceAt(root, dirSegs, parent.(children := children)), dirSegs + [base]) == FindChild(children, base)
    ensures Walk(root, dirSegs + [base]) == FindChild(parent.children, base)
  {
    var sub := parent.(children := children);
    WalkReplaceAt(root, dirSegs, sub, []);
    assert dirSegs + [] == dirSegs;
    WalkReplaceAt(root, dirSegs, sub, [base]);
    WalkConcat(root, dirSegs, [base]);
    assert [base][1..] == [];
  }

  /** Paths away from the changed entry see the same nodes. */
  lemma FrameAtParent(root: Node, dirSegs: seq<string>, parent: Node, children: seq<Child>, base: string, q: seq<string>)
    requires Walk(root, dirSegs) == Some(parent) && parent.Dir?
    requires forall k :: k != base ==> FindChild(children, k) == FindChild(parent.children, k)
    requires Away(q, dirSegs + [base])
    ensures Walk(ReplaceAt(root, dirSegs, parent.(children := children)), q) == Walk(root, q)
  {
    var sub := parent.(children := children);
    assert q <= dirSegs ==> q <= dirSegs + [base];
    if !(dirSegs <= q) {
      WalkReplaceAway(root, dirSegs, sub, q);
    } else {
      ExtensionPrefix(dirSegs, base, q);
      var r := q[|dirSegs|..];
      assert q == dirSegs + r;
      WalkReplaceAt(root, dirSegs, sub, r);
      WalkConcat(root, dirSegs, r);
      assert FindChild(children, r[0]) == FindChild(parent.children, r[0]);
    }
  }

  lemma {:induction false} WalkValid(n: Node, segs: seq<string>)
    requires Valid(n) && Walk(n, segs).Some?
    ensures Valid(Walk(n, segs).value)
    decreases |segs|
  {
    if |segs| > 0 {
      FindChildValid(n.children, segs[0]);
      WalkValid(FindChild(n.children, segs[0]).value, segs[1..]);
    }
  }

  /** Giving a directory of a valid tree new children with distinct names keeps the tree valid. */
  lemma ReplaceChildrenValid(root: Node, dirSegs: seq<string>, parent: Node, children: seq<Child>)
    requires root.Dir? && Valid(root) && Walk(root, dirSegs) == Some(parent) && parent.Dir?
    requires UniqueChildKeys(children) && forall i :: 0 <= i < |children| ==> Valid(children[i].node)
    ensures var r := ReplaceAt(root, dirSegs, parent.(children := children)); r.Dir? && Valid(r)
  {
    ReplaceAtValid(root, dirSegs, parent.(children := children));
  }

  /** A directory's new children keep every old name, each as the same kind of node, and
      every old subdirectory unchanged. */
  ghost predicate Grows(before: seq<Child>, after: seq<Child>) {
    forall k :: FindChild(before, k).Some? ==>
      && FindChild(after, k).Some?
      && FindChild(after, k).value.File? == FindChild(before, k).value.File?
      && (FindChild(before, k).value.Dir? ==> FindChild(after, k) == FindChild(before, k))
  }

  /** Growing one directory keeps every path that was there, as the same kind of node. */
  lemma {:induction false} WalkGrows(n: Node, segs: seq<string>, parent: Node, children: seq<Child>, q: seq<string>)
    requires Walk(n, segs) == Some(parent) && parent.Dir?
    requires Grows(parent.children, children)
    requires Walk(n, q).Some?
    ensures var w := Walk(ReplaceAt(n, segs, parent.(children := children)), q);
      w.Some? && w.value.File? == Walk(n, q).value.File?
    decreases |q|
  {
    var sub := parent.(children := children);
    if |q| > 0 && |segs| == 0 {
      var c := FindChild(parent.children, q[0]).value;
      var c' := FindChild(children, q[0]).value;
      assert Walk(sub, q) == Walk(c', q[1..]);
      if c.File? {
        assert |q[1..]| == 0;
      }
    } else if |q| > 0 {
      var c := FindChild(n.children, segs[0]).value;
      FindSetChild(n.children, segs[0], ReplaceAt(c, segs[1..], sub), q[0]);
      if q[0] == segs[0] {
        WalkGrows(c, segs[1..], parent, children, q[1..]);
      }
    }
  }

  // ---------------------------------------------------------------------------
  // writeFile

  /** The entry `writeFile` stores: an overwrite, or a new file. */
  function Written(parent: Node, base: string, content: string, now: nat): Node
    requires parent.Dir?
  {
    match FindChild(parent.children, base)
    case Some(existing) => if existing.File? then Rewritten(existing, content, now) else existing
    case None => NewFile(base, content, now)
  }

  /** `writeFile` fails exactly when the parent is missing, the parent is a file, or the target
      is a directory; otherwise it stores the entry in the parent. */
  lemma WriteAtCases(fs: FS, path: string, site: Site, content: string, now: nat)
    ensures var parent := GetNode(fs.root, site.dirPath);
      var existing := if parent.Some? && parent.value.Dir? then FindChild(parent.value.children, site.base) else None;
      var r := WriteAt(fs, path, site, content, now);
      && (parent.None? ==> r == Err("Parent directory does not exist: " + path))
      && (parent.Some? && parent.value.File? ==> r == Err("Parent is not a directory: " + path))
      && (existing.Some? && existing.value.Dir? ==> r == Err("Cannot write to directory: " + path))
      && (r.Err? <==> parent.None? || parent.value.File? || (existing.Some? && existing.value.Dir?))
      && (r.Ok? ==> r.value == WithChildren(fs, site.dirPath, parent.value,
                       SetChild(parent.value.children, site.base, Written(parent.value, site.base, content, now))))
  {
  }

  lemma WriteFileFails(fs: FS, path: string, content: string, now: nat)
    ensures var site := SiteOf(fs, path);
      var parent := GetNode(fs.root, site.dirPath);
      var existing := if parent.Some? && parent.value.Dir? then FindChild(parent.value.children, site.base) else None;
      var r := WriteFile(fs, path, content, now);
      && (parent.None? ==> r == Err("Parent directory does not exist: " + path))
      && (parent.Some? && parent.value.File? ==> r == Err("Parent is not a directory: " + path))
      && (existing.Some? && existing.value.Dir? ==> r == Err("Cannot write to directory: " + path))
      && (r.Err? <==> parent.None? || parent.value.File? || (existing.Some? && existing.value.Dir?))
  {
    WriteAtCases(fs, path, SiteOf(fs, path), content, now);
  }

  /** After a successful `writeFile(p, c)`, `readFile(p)` is c and the size is c's UTF-16 length;
      an overwrite keeps `created`, a new file is created now. */
  lemma WriteFileReadBack(fs: FS, path: string, content: string, now: nat)
    requires WriteFile(fs, path, content, now).Ok?
    requires Target(fs, path) != []
    ensures var fs' := WriteFile(fs, path, content, now).value;
      && fs'.cwd == fs.cwd
      && ReadFile(fs', path) == Ok(content)
      && Stat(fs', path).Ok? && Stat(fs', path).value.size == Utf16Length(content)
      && Stat(fs', path).value.modified == now
      && (Locate(fs, path).Some? ==> Stat(fs', path).value.created == Stat(fs, path).value.created)
      && (Locate(fs, path).None? ==> Stat(fs', path).value.created == now)
  {
    var site := SiteOf(fs, path);
    SiteFacts(fs, path);
    WriteAtCases(fs, path, site, content, now);
    var dirSegs := NormalSegs(site.dirPath);
    var parent := GetNode(fs.root, site.dirPath).value;
    var node := Written(parent, site.base, content, now);
    var children := SetChild(parent.children, site.base, node);
    var fs' := WriteFile(fs, path, content, now).value;
    assert fs'.root == ReplaceAt(fs.root, dirSegs, parent.(children := children));
    ReplaceChildWalk(fs.root, dirSegs, parent, children, site.base);
    FindSetChild(parent.children, site.base, node, site.base);
    assert Target(fs', path) == Target(fs, path);
    LocateWalk(fs', path);
  }

  /** A successful `writeFile` changes nothing away from the target's branch. */
  lemma WriteFileFrame(fs: FS, path: string, content: string, now: nat, q: seq<string>)
    requires WriteFile(fs, path, content, now).Ok?
    requires Target(fs, path) != [] && Away(q, Target(fs, path))
    ensures Walk(WriteFile(fs, path, content, now).value.root, q) == Walk(fs.root, q)
  {
    var site := SiteOf(fs, path);
    SiteFacts(fs, path);
    WriteAtCases(fs, path, site, content, now);
    var parent := GetNode(fs.root, site.dirPath).value;
    var node := Written(parent, site.base, content, now);
    var children := SetChild(parent.children, site.base, node);
    forall k | k != site.base ensures FindChild(children, k) == FindChild(parent.children, k) {
      FindSetChild(parent.children, site.base, node, k);
    }
    FrameAtParent(fs.root, NormalSegs(site.dirPath), parent, children, site.base, q);
  }

  /** The parent's listing after a write: the same names in the same order, or the new name appended. */
  lemma WriteFileEntries(fs: FS, path: string, content: string, now: nat)
    requires WriteFile(fs, path, content, now).Ok?
    requires Target(fs, path) != []
    ensures var site := SiteOf(fs, path);
      var fs' := WriteFile(fs, path, content, now).value;
      var before := ReadDir(fs, site.dirPath);
      var after := ReadDir(fs', site.dirPath);
      && before.Ok? && after.Ok?
      && (Locate(fs, path).Some? ==> after.value == before.value)
      && (Locate(fs, path).None? ==> after.value == before.value + [site.base])
  {
    var site := SiteOf(fs, path);
    SiteFacts(fs, path);
    WriteAtCases(fs, path, site, content, now);
    var dirSegs := NormalSegs(site.dirPath);
    var parent := GetNode(fs.root, site.dirPath).value;
    var node := Written(parent, site.base, content, now);
    var children := SetChild(parent.children, site.base, node);
    var fs' := WriteFile(fs, path, content, now).value;
    ReplaceChildWalk(fs.root, dirSegs, parent, children, site.base);
    SiteParent(fs, path, fs);
    SiteParent(fs, path, fs');
    GetNodeWalk(fs'.root, site.dirPath);
    assert Locate(fs, site.dirPath) == Some(parent);
    assert Locate(fs', site.dirPath) == Some(parent.(children := children));
    assert Locate(fs, path) == FindChild(parent.children, site.base);
    ChildKeysAppend(parent.children, Child(site.base, node));
  }

  lemma WriteFileValid(fs: FS, path: string, content: string, now: nat)
    requires ValidFS(fs) && WriteFile(fs, path, content, now).Ok?
    ensures ValidFS(WriteFile(fs, path, content, now).value)
  {
    var site := SiteOf(fs, path);
    WriteAtCases(fs, path, site, content, now);
    var parent := GetNode(fs.root, site.dirPath).value;
    GetNodeWalk(fs.root, site.dirPath);
    var dirSegs := NormalSegs(site.dirPath);
    WalkValid(fs.root, dirSegs);
    var node := Written(parent, site.base, content, now);
    SetChildUnique(parent.children, site.base, node);
    FindChildValid(parent.children, site.base);
    SetChildValid(parent.children, site.base, node);
    ReplaceChildrenValid(fs.root, dirSegs, parent, SetChild(parent.children, site.base, node));
  }

  /** `writeFile` never removes anything: every path that existed still does, as the same kind. */
  lemma WriteFileKeeps(fs: FS, path: string, content: string, now: nat, p: string)
    requires WriteFile(fs, path, content, now).Ok? && Exists(fs, p)
    ensures Exists(WriteFile(fs, path, content, now).value, p)
    ensures IsFile(WriteFile(fs, path, content, now).value, p) == IsFile(fs, p)
  {
    var site := SiteOf(fs, path);
    WriteAtCases(fs, path, site, content, now);
    var parent := GetNode(fs.root, site.dirPath).value;
    GetNodeWalk(fs.root, site.dirPath);
    var node := Written(parent, site.base, content, now);
    var children := SetChild(parent.children, site.base, node);
    var fs' := WriteFile(fs, path, content, now).value;
    forall k | FindChild(parent.children, k).Some?
      ensures FindChild(children, k).Some?
      ensures FindChild(children, k).value.File? == FindChild(parent.children, k).value.File?
      ensures FindChild(parent.children, k).value.Dir? ==> FindChild(children, k) == FindChild(parent.children, k)
    {
      FindSetChild(parent.children, site.base, node, k);
    }
    LocateWalk(fs, p);
    LocateWalk(fs', p);
    assert Target(fs', p) == Target(fs, p);
    WalkGrows(fs.root, NormalSegs(site.dirPath), parent, children, Target(fs, p));
  }

  /** No path continues below a file. */
  lemma FilePrefix(n: Node, a: seq<string>, b: seq<string>)
    requires Walk(n, a).Some? && Walk(n, a).value.File?
    requires Walk(n, b).Some? && a <= b
    ensures a == b
  {
    var r := b[|a|..];
    assert b == a + r;
    WalkConcat(n, a, r);
  }

  /** A path leading to an existing node exists itself. */
  lemma WalkPrefix(n: Node, a: seq<string>, b: seq<string>)
    requires Walk(n, b).Some? && a <= b
    ensures Walk(n, a).Some?
  {
    var r := b[|a|..];
    assert b == a + r;
    WalkConcat(n, a, r);
  }

  /** A successful `writeFile` to another path leaves every file where it was. */
  lemma WriteFileAway(fs: FS, path: string, content: string, now: nat, p: string)
    requires WriteFile(fs, path, content, now).Ok?
    requires Target(fs, path) != [] && IsFile(fs, p) && Target(fs, p) != Target(fs, path)
    ensures Locate(WriteFile(fs, path, content, now).value, p) == Locate(fs, p)
  {
    var site := SiteOf(fs, path);
    var t := Target(fs, path);
    var q := Target(fs, p);
    var fs' := WriteFile(fs, path, content, now).value;
    SiteFacts(fs, path);
    WriteAtCases(fs, path, site, content, now);
    LocateWalk(fs, p);
    var dirSegs := NormalSegs(site.dirPath);
    if q <= t {
      assert q <= dirSegs;
      if Walk(fs.root, dirSegs).Some? {
        FilePrefix(fs.root, q, dirSegs);
      }
    }
    if t <= q {
      WalkPrefix(fs.root, t, q);
      if Walk(fs.root, t).value.File? {
        FilePrefix(fs.root, t, q);
      }
      ReplaceChildWalk(fs.root, dirSegs, GetNode(fs.root, site.dirPath).value,
        SetChild(GetNode(fs.root, site.dirPath).value.children, site.base,
          Written(GetNode(fs.root, site.dirPath).value, site.base, content, now)), site.base);
    }
    assert Away(q, t);
    WriteFileFrame(fs, path, content, now, q);
    WriteFileReadBack(fs, path, content, now);
    assert Target(fs', p) == q;
    LocateWalk(fs', p);
  }

  /** The only path a successful `writeFile` brings into existence is its own target. */
  lemma WriteFileOnlyAdds(fs: FS, path: string, content: string, now: nat, p: string)
    requires WriteFile(fs, path, content, now).Ok? && Target(fs, path) != []
    requires !Exists(fs, p) && Exists(WriteFile(fs, path, content, now).value, p)
    ensures Target(fs, p) == Target(fs, path)
  {
    var site := SiteOf(fs, path);
    var t := Target(fs, path);
    var q := Target(fs, p);
    var fs' := WriteFile(fs, path, content, now).value;
    SiteFacts(fs, path);
    WriteAtCases(fs, path, site, content, now);
    WriteFileReadBack(fs, path, content, now);
    LocateWalk(fs, p);
    LocateWalk(fs', p);
    LocateWalk(fs', path);
    assert Target(fs', p) == q && Target(fs', path) == t;
    var dirSegs := NormalSegs(site.dirPath);
    if q <= t && q != t {
      assert q <= dirSegs;
      WalkPrefix(fs.root, q, dirSegs);
    } else if t <= q && t != q {
      FilePrefix(fs'.root, t, q);
    } else if Away(q, t) {
      WriteFileFrame(fs, path, content, now, q);
    }
  }

  /** The only path a successful `createDir` brings into existence is its own target. */
  lemma CreateDirOnlyAdds(fs: FS, path: string, now: nat, p: string)
    requires CreateDir(fs, path, now).Ok? && Target(fs, path) != []
    requires !Exists(fs, p) && Exists(CreateDir(fs, path, now).value, p)
    ensures Target(fs, p) == Target(fs, path)
  {
    var site := SiteOf(fs, path);
    var t := Target(fs, path);
    var q := Target(fs, p);
    var fs' := CreateDir(fs, path, now).value;
    SiteFacts(fs, path);
    CreateAtCases(fs, path, site, now);
    CreateDirAdds(fs, path, now);
    LocateWalk(fs, p);
    LocateWalk(fs', p);
    LocateWalk(fs', path);
    assert Target(fs', p) == q && Target(fs', path) == t;
    var dirSegs := NormalSegs(site.dirPath);
    if q <= t && q != t {
      assert q <= dirSegs;
      WalkPrefix(fs.root, q, dirSegs);
    } else if t <= q && t != q {
      NothingBelowLeaf(fs'.root, t, q);
    } else if Away(q, t) {
      CreateDirFrame(fs, path, now, q);
    }
  }

  /** Where an existing non-root entry lives: its parent directory holds it under its base name. */
  lemma EntryInParent(fs: FS, path: string)
    requires Target(fs, path) != [] && Exists(fs, path)
    ensures var site := SiteOf(fs, path);
      var parent := GetNode(fs.root, site.dirPath);
      && parent.Some? && parent.value.Dir?
      && FindChild(parent.value.children, site.base) == Locate(fs, path)
  {
    var site := SiteOf(fs, path);
    SiteFacts(fs, path);
    var dirSegs := NormalSegs(site.dirPath);
    WalkConcat(fs.root, dirSegs, [site.base]);
    assert [site.base][1..] == [];
  }

  /** An existing file can always be overwritten. */
  lemma FileWritable(fs: FS, path: string, content: string, now: nat)
    requires Target(fs, path) != [] && IsFile(fs, path)
    ensures WriteFile(fs, path, content, now).Ok?
  {
    EntryInParent(fs, path);
    WriteFileFails(fs, path, content, now);
  }

  /** Overwriting an existing file succeeds, and reading it back gives the new content. */
  lemma OverwriteFile(fs: FS, path: string, content: string, now: nat)
    requires Target(fs, path) != [] && IsFile(fs, path)
    ensures WriteFile(fs, path, content, now).Ok?
    ensures ReadFile(WriteFile(fs, path, content, now).value, path) == Ok(content)
  {
    FileWritable(fs, path, content, now);
    WriteFileReadBack(fs, path, content, now);
  }

  /** A directory cannot be overwritten. */
  lemma DirectoryNotWritable(fs: FS, path: string, content: string, now: nat)
    requires Target(fs, path) != [] && IsDirectory(fs, path)
    ensures WriteFile(fs, path, content, now) == Err("Cannot write to directory: " + path)
  {
    EntryInParent(fs, path);
    WriteFileFails(fs, path, content, now);
  }

  /** An existing file can always be deleted. */
  lemma FileDeletable(fs: FS, path: string)
    requires Target(fs, path) != [] && IsFile(fs, path)
    ensures DeleteFile(fs, path).Ok?
  {
    EntryInParent(fs, path);
    DeleteFileFails(fs, path);
  }

  /** `deleteFile` on a directory with entries fails, whatever the flags of the caller. */
  lemma NonEmptyNotDeletable(fs: FS, path: string)
    requires Target(fs, path) != [] && IsDirectory(fs, path) && |Locate(fs, path).value.children| > 0
    ensures DeleteFile(fs, path) == Err("Directory not empty: " + path)
  {
    EntryInParent(fs, path);
    DeleteFileFails(fs, path);
  }

  /** "/" names the root's own entry: dirname "/", basename "". */
  lemma RootSite(fs: FS)
    requires ValidFS(fs)
    ensures SiteOf(fs, "/") == Site("/", "")
    ensures GetNode(fs.root, "/") == Some(fs.root)
  {
    RootIsDirectory(fs);
    NormalizeSegments("/");
    DirnameBasename("/");
    GetNodeWalk(fs.root, "/");
  }

  lemma WriteToRootTree(fs: FS, content: string, now: nat)
    requires ValidFS(fs) && "" !in ChildKeys(fs.root.children)
    ensures WriteFile(fs, "/", content, now) ==
      Ok(fs.(root := fs.root.(children := fs.root.children + [Child("", NewFile("", content, now))])))
  {
    RootSite(fs);
    assert NormalSegs("/") == [] by { NormalizeSegments("/"); RootIsDirectory(fs); }
  }

  /** Writing to "/" adds an entry named "" to the root that no path reaches: `readFile("/")`
      still finds the root directory. */
  lemma WriteToRoot(fs: FS, content: string, now: nat)
    requires ValidFS(fs) && "" !in ChildKeys(fs.root.children)
    ensures var w := WriteFile(fs, "/", content, now);
      && w.Ok? && w.value.root.Dir?
      && ChildKeys(w.value.root.children) == ChildKeys(fs.root.children) + [""]
      && ReadFile(w.value, "/") == Err("Not a file: /")
  {
    WriteToRootTree(fs, content, now);
    var fs' := fs.(root := fs.root.(children := fs.root.children + [Child("", NewFile("", content, now))]));
    ChildKeysAppend(fs.root.children, Child("", NewFile("", content, now)));
    WriteFileValid(fs, "/", content, now);
    ReadRootFails(fs');
  }

  /** `readFile("/")` always finds the root directory. */
  lemma ReadRootFails(fs: FS)
    requires ValidFS(fs)
    ensures ReadFile(fs, "/") == Err("Not a file: /")
  {
    RootIsDirectory(fs);
  }

  // ---------------------------------------------------------------------------
  // createDir

  lemma CreateAtCases(fs: FS, path: string, site: Site, now: nat)
    ensures var parent := GetNode(fs.root, site.dirPath);
      var r := CreateAt(fs, path, site, now);
      && (parent.None? ==> r == Err("Parent directory does not exist: " + path))
      && (parent.Some? && parent.value.File? ==> r == Err("Parent is not a directory: " + path))
      && (parent.Some? && parent.value.Dir? && site.base in ChildKeys(parent.value.children) ==>
            r == Err("File or directory already exists: " + path))
      && (r.Err? <==> parent.None? || parent.value.File? || site.base in ChildKeys(parent.value.children))
      && (r.Ok? ==> r.value == WithChildren(fs, site.dirPath, parent.value,
                       parent.value.children + [Child(site.base, NewDir(site.base, now))]))
  {
  }

  /** `createDir` fails exactly when the parent is missing or a file, or the name is taken. */
  lemma CreateDirFails(fs: FS, path: string, now: nat)
    ensures var site := SiteOf(fs, path);
      var parent := GetNode(fs.root, site.dirPath);
      var r := CreateDir(fs, path, now);
      && (parent.None? ==> r == Err("Parent directory does not exist: " + path))
      && (parent.Some? && parent.value.File? ==> r == Err("Parent is not a directory: " + path))
      && (parent.Some? && parent.value.Dir? && site.base in ChildKeys(parent.value.children) ==>
            r == Err("File or directory already exists: " + path))
      && (r.Err? <==> parent.None? || parent.value.File? || site.base in ChildKeys(parent.value.children))
  {
    CreateAtCases(fs, path, SiteOf(fs, path), now);
  }

  /** A successful `createDir` adds exactly one empty directory, appended to its parent's listing. */
  lemma CreateDirAdds(fs: FS, path: string, now: nat)
    requires CreateDir(fs, path, now).Ok?
    requires Target(fs, path) != []
    ensures var site := SiteOf(fs, path);
      var fs' := CreateDir(fs, path, now).value;
      && fs'.cwd == fs.cwd
      && Locate(fs, path).None?
      && Locate(fs', path) == Some(NewDir(site.base, now))
      && ReadDir(fs', path) == Ok([])
      && ReadDir(fs, site.dirPath).Ok?
      && ReadDir(fs', site.dirPath) == Ok(ReadDir(fs, site.dirPath).value + [site.base])
  {
    var site := SiteOf(fs, path);
    SiteFacts(fs, path);
    CreateAtCases(fs, path, site, now);
    var dirSegs := NormalSegs(site.dirPath);
    var parent := GetNode(fs.root, site.dirPath).value;
    var node := NewDir(site.base, now);
    var children := parent.children + [Child(site.base, node)];
    var fs' := CreateDir(fs, path, now).value;
    assert fs'.root == ReplaceAt(fs.root, dirSegs, parent.(children := children));
    ReplaceChildWalk(fs.root, dirSegs, parent, children, site.base);
    FindSetChild(parent.children, site.base, node, site.base);
    assert Target(fs', path) == Target(fs, path);
    LocateWalk(fs', path);
    SiteParent(fs, path, fs);
    SiteParent(fs, path, fs');
    GetNodeWalk(fs'.root, site.dirPath);
    assert Locate(fs, site.dirPath) == Some(parent);
    assert Locate(fs', site.dirPath) == Some(parent.(children := children));
    ChildKeysAppend(parent.children, Child(site.base, node));
  }

  lemma CreateDirFrame(fs: FS, path: string, now: nat, q: seq<string>)
    requires CreateDir(fs, path, now).Ok?
    requires Target(fs, path) != [] && Away(q, Target(fs, path))
    ensures Walk(CreateDir(fs, path, now).value.root, q) == Walk(fs.root, q)
  {
    var site := SiteOf(fs, path);
    SiteFacts(fs, path);
    CreateAtCases(fs, path, site, now);
    var parent := GetNode(fs.root, site.dirPath).value;
    var node := NewDir(site.base, now);
    var children := parent.children + [Child(site.base, node)];
    forall k | k != site.base ensures FindChild(children, k) == FindChild(parent.children, k) {
      FindSetChild(parent.children, site.base, node, k);
    }
    FrameAtParent(fs.root, NormalSegs(site.dirPath), parent, children, site.base, q);
  }

  lemma CreateDirValid(fs: FS, path: string, now: nat)
    requires ValidFS(fs) && CreateDir(fs, path, now).Ok?
    ensures ValidFS(CreateDir(fs, path, now).value)
    ensures CreateDir(fs, path, now).value.cwd == fs.cwd
  {
    var site := SiteOf(fs, path);
    CreateAtCases(fs, path, site, now);
    var parent := GetNode(fs.root, site.dirPath).value;
    GetNodeWalk(fs.root, site.dirPath);
    var dirSegs := NormalSegs(site.dirPath);
    WalkValid(fs.root, dirSegs);
    var node := NewDir(site.base, now);
    SetChildUnique(parent.children, site.base, node);
    SetChildValid(parent.children, site.base, node);
    ReplaceChildrenValid(fs.root, dirSegs, parent, SetChild(parent.children, site.base, node));
  }

  /** `createDir` never removes anything: every path that existed still does, as the same kind. */
  lemma CreateDirKeeps(fs: FS, path: string, now: nat, p: string)
    requires CreateDir(fs, path, now).Ok? && Exists(fs, p)
    ensures Exists(CreateDir(fs, path, now).value, p)
    ensures IsFile(CreateDir(fs, path, now).value, p) == IsFile(fs, p)
  {
    var site := SiteOf(fs, path);
    CreateAtCases(fs, path, site, now);
    var parent := GetNode(fs.root, site.dirPath).value;
    GetNodeWalk(fs.root, site.dirPath);
    var node := NewDir(site.base, now);
    var children := parent.children + [Child(site.base, node)];
    var fs' := CreateDir(fs, path, now).value;
    forall k | FindChild(parent.children, k).Some? ensures FindChild(children, k) == FindChild(parent.children, k) {
      FindSetChild(parent.children, site.base, node, k);
    }
    LocateWalk(fs, p);
    LocateWalk(fs', p);
    assert Target(fs', p) == Target(fs, p);
    WalkGrows(fs.root, NormalSegs(site.dirPath), parent, children, Target(fs, p));
  }

  // ---------------------------------------------------------------------------
  // deleteFile

  lemma DeleteAtCases(fs: FS, path: string, site: Site)
    ensures var parent := GetNode(fs.root, site.dirPath);
      var node := if parent.Some? && parent.value.Dir? then FindChild(parent.value.children, site.base) else None;
      var r := DeleteAt(fs, path, site);
      && (parent.None? || parent.value.File? ==> r == Err("Parent directory does not exist: " + path))
      && (parent.Some? && parent.value.Dir? && node.None? ==> r == Err("File not found: " + path))
      && (node.Some? && node.value.Dir? && |node.value.children| > 0 ==> r == Err("Directory not empty: " + path))
      && (r.Ok? <==> node.Some? && (node.value.File? || node.value.children == []))
      && (r.Ok? ==> r.value == WithChildren(fs, site.dirPath, parent.value, RemoveChild(parent.value.children, site.base)))
  {
  }

  /** `deleteFile` fails exactly when the parent is missing or a file, the entry is missing, or it
      is a directory with at least one entry; empty directories are deleted like files. */
  lemma DeleteFileFails(fs: FS, path: string)
    ensures var site := SiteOf(fs, path);
      var parent := GetNode(fs.root, site.dirPath);
      var node := if parent.Some? && parent.value.Dir? then FindChild(parent.value.children, site.base) else None;
      var r := DeleteFile(fs, path);
      && (parent.None? || parent.value.File? ==> r == Err("Parent directory does not exist: " + path))
      && (parent.Some? && parent.value.Dir? && node.None? ==> r == Err("File not found: " + path))
      && (node.Some? && node.value.Dir? && |node.value.children| > 0 ==> r == Err("Directory not empty: " + path))
      && (r.Ok? <==> node.Some? && (node.value.File? || node.value.children == []))
  {
    DeleteAtCases(fs, path, SiteOf(fs, path));
  }

  lemma ChildKeysSplice(ch: seq<Child>, i: nat)
    requires i < |ch|
    ensures ChildKeys(ch[..i] + ch[i + 1..]) == ChildKeys(ch)[..i] + ChildKeys(ch)[i + 1..]
  {
    var l := ch[..i] + ch[i + 1..];
    assert |ChildKeys(l)| == |ChildKeys(ch)[..i] + ChildKeys(ch)[i + 1..]|;
    forall j | 0 <= j < |l| ensures ChildKeys(l)[j] == (ChildKeys(ch)[..i] + ChildKeys(ch)[i + 1..])[j] {
      if j < i { assert l[j] == ch[j]; } else { assert l[j] == ch[j + 1]; }
    }
  }

  /** A successful `deleteFile` removes the entry: the path existed and is gone. */
  lemma DeleteFileRemoves(fs: FS, path: string)
    requires ValidFS(fs) && DeleteFile(fs, path).Ok?
    requires Target(fs, path) != []
    ensures var fs' := DeleteFile(fs, path).value;
      && fs'.cwd == fs.cwd
      && Locate(fs, path).Some?
      && Locate(fs', path).None?
  {
    var site := SiteOf(fs, path);
    SiteFacts(fs, path);
    DeleteAtCases(fs, path, site);
    var dirSegs := NormalSegs(site.dirPath);
    var parent := GetNode(fs.root, site.dirPath).value;
    WalkValid(fs.root, dirSegs);
    var children := RemoveChild(parent.children, site.base);
    var fs' := DeleteFile(fs, path).value;
    assert fs'.root == ReplaceAt(fs.root, dirSegs, parent.(children := children));
    ReplaceChildWalk(fs.root, dirSegs, parent, children, site.base);
    FindRemoveChild(parent.children, site.base, site.base);
    assert Target(fs', path) == Target(fs, path);
    LocateWalk(fs', path);
  }

  /** ... and only that entry: the parent keeps its other entries in order. */
  lemma DeleteFileEntries(fs: FS, path: string)
    requires ValidFS(fs) && DeleteFile(fs, path).Ok?
    requires Target(fs, path) != []
    ensures var site := SiteOf(fs, path);
      var fs' := DeleteFile(fs, path).value;
      var before := ReadDir(fs, site.dirPath);
      && before.Ok?
      && exists i :: 0 <= i < |before.value| && before.value[i] == site.base
           && ReadDir(fs', site.dirPath) == Ok(before.value[..i] + before.value[i + 1..])
  {
    var site := SiteOf(fs, path);
    DeleteAtCases(fs, path, site);
    var parent := GetNode(fs.root, site.dirPath).value;
    var children := RemoveChild(parent.children, site.base);
    var fs' := DeleteFile(fs, path).value;
    ParentListing(fs, path, fs', parent, children);
    RemovedKeyAt(parent.children, site.base);
  }

  /** Removing a present key takes its one entry out of the listing. */
  lemma RemovedKeyAt(ch: seq<Child>, key: string)
    requires key in ChildKeys(ch)
    ensures var ks := ChildKeys(ch);
      exists i :: 0 <= i < |ks| && ks[i] == key && ChildKeys(RemoveChild(ch, key)) == ks[..i] + ks[i + 1..]
  {
    var i := ChildIndex(ch, key);
    RemoveChildKeys(ch, key);
    assert ChildKeys(ch)[i] == key;
  }

  /** The parent's listing before and after its children are replaced. */
  lemma ParentListing(fs: FS, path: string, fs': FS, parent: Node, children: seq<Child>)
    requires Target(fs, path) != []
    requires GetNode(fs.root, SiteOf(fs, path).dirPath) == Some(parent) && parent.Dir?
    requires fs' == WithChildren(fs, SiteOf(fs, path).dirPath, parent, children)
    ensures ReadDir(fs, SiteOf(fs, path).dirPath) == Ok(ChildKeys(parent.children))
    ensures ReadDir(fs', SiteOf(fs, path).dirPath) == Ok(ChildKeys(children))
  {
    var site := SiteOf(fs, path);
    SiteFacts(fs, path);
    var dirSegs := NormalSegs(site.dirPath);
    ReplaceChildWalk(fs.root, dirSegs, parent, children, site.base);
    SiteParent(fs, path, fs);
    SiteParent(fs, path, fs');
    GetNodeWalk(fs'.root, site.dirPath);
    assert Locate(fs, site.dirPath) == Some(parent);
    assert Locate(fs', site.dirPath) == Some(parent.(children := children));
  }

  lemma RemoveChildKeys(ch: seq<Child>, key: string)
    requires key in ChildKeys(ch)
    ensures var i := ChildIndex(ch, key);
      ChildKeys(RemoveChild(ch, key)) == ChildKeys(ch)[..i] + ChildKeys(ch)[i + 1..]
  {
    RemoveChildAt(ch, key);
    ChildKeysSplice(ch, ChildIndex(ch, key));
  }

  lemma DeleteFileFrame(fs: FS, path: string, q: seq<string>)
    requires ValidFS(fs) && DeleteFile(fs, path).Ok?
    requires Target(fs, path) != [] && Away(q, Target(fs, path))
    ensures Walk(DeleteFile(fs, path).value.root, q) == Walk(fs.root, q)
  {
    var site := SiteOf(fs, path);
    SiteFacts(fs, path);
    DeleteAtCases(fs, path, site);
    var parent := GetNode(fs.root, site.dirPath).value;
    WalkValid(fs.root, NormalSegs(site.dirPath));
    var children := RemoveChild(parent.children, site.base);
    forall k | k != site.base ensures FindChild(children, k) == FindChild(parent.children, k) {
      FindRemoveChild(parent.children, site.base, k);
    }
    FrameAtParent(fs.root, NormalSegs(site.dirPath), parent, children, site.base, q);
  }

  lemma DeleteFileValid(fs: FS, path: string)
    requires ValidFS(fs) && DeleteFile(fs, path).Ok?
    ensures ValidFS(DeleteFile(fs, path).value)
  {
    var site := SiteOf(fs, path);
    DeleteAtCases(fs, path, site);
    var parent := GetNode(fs.root, site.dirPath).value;
    GetNodeWalk(fs.root, site.dirPath);
    var dirSegs := NormalSegs(site.dirPath);
    WalkValid(fs.root, dirSegs);
    var children := RemoveChild(parent.children, site.base);
    RemoveChildUnique(parent.children, site.base);
    forall i | 0 <= i < |children| ensures Valid(children[i].node) {
      assert children[i] in parent.children;
    }
    ReplaceChildrenValid(fs.root, dirSegs, parent, children);
  }

  /** A successful `deleteFile` brings nothing into existence. */
  lemma DeleteFileKeepsAbsent(fs: FS, path: string, p: string)
    requires ValidFS(fs) && DeleteFile(fs, path).Ok? && Target(fs, path) != []
    requires !Exists(fs, p)
    ensures !Exists(DeleteFile(fs, path).value, p)
  {
    var fs' := DeleteFile(fs, path).value;
    var t := Target(fs, path);
    var q := Target(fs, p);
    DeleteFileRemoves(fs, path);
    LocateWalk(fs, path);
    LocateWalk(fs, p);
    LocateWalk(fs', path);
    LocateWalk(fs', p);
    assert Target(fs', p) == q && Target(fs', path) == t;
    if q <= t {
      WalkPrefix(fs.root, q, t);
    } else if t <= q {
      if Walk(fs'.root, q).Some? {
        WalkPrefix(fs'.root, t, q);
      }
    } else {
      DeleteFileFrame(fs, path, q);
    }
  }

  /** What `deleteFile` removes is a file or an empty directory. */
  lemma DeletedIsLeaf(fs: FS, path: string)
    requires DeleteFile(fs, path).Ok? && Target(fs, path) != []
    ensures Locate(fs, path).Some?
    ensures Locate(fs, path).value.File? || Locate(fs, path).value.children == []
  {
    var site := SiteOf(fs, path);
    SiteFacts(fs, path);
    DeleteAtCases(fs, path, site);
    var dirSegs := NormalSegs(site.dirPath);
    WalkConcat(fs.root, dirSegs, [site.base]);
    assert [site.base][1..] == [];
  }

  /** Nothing lies below a file or an empty directory. */
  lemma NothingBelowLeaf(n: Node, t: seq<string>, q: seq<string>)
    requires Walk(n, t).Some? && (Walk(n, t).value.File? || Walk(n, t).value.children == [])
    requires Walk(n, q).Some? && t <= q
    ensures t == q
  {
    var r := q[|t|..];
    assert q == t + r;
    WalkConcat(n, t, r);
  }

  /** ... and leaves every other file where it was. */
  lemma DeleteFileAway(fs: FS, path: string, p: string)
    requires ValidFS(fs) && DeleteFile(fs, path).Ok? && Target(fs, path) != []
    requires IsFile(fs, p) && Target(fs, p) != Target(fs, path)
    ensures Locate(DeleteFile(fs, path).value, p) == Locate(fs, p)
  {
    var fs' := DeleteFile(fs, path).value;
    var t := Target(fs, path);
    var q := Target(fs, p);
    DeletedIsLeaf(fs, path);
    DeleteFileRemoves(fs, path);
    LocateWalk(fs, path);
    LocateWalk(fs, p);
    LocateWalk(fs', p);
    assert Target(fs', p) == q;
    if q <= t {
      FilePrefix(fs.root, q, t);
    }
    if t <= q {
      NothingBelowLeaf(fs.root, t, q);
    }
    DeleteFileFrame(fs, path, q);
  }

  // ---------------------------------------------------------------------------
  // readDir, setCwd, initializeDefaultStructure

  /** `readDir` lists names in insertion order and fails on a missing path or a file. */
  lemma ReadDirResult(fs: FS, path: string)
    ensures Locate(fs, path).None? ==> ReadDir(fs, path) == Err("Directory not found: " + path)
    ensures IsFile(fs, path) ==> ReadDir(fs, path) == Err("Not a directory: " + path)
    ensures ReadDir(fs, path).Ok? <==> IsDirectory(fs, path)
    ensures ReadDir(fs, path).Ok? ==> ReadDir(fs, path).value == ChildKeys(Locate(fs, path).value.children)
  {
  }

  /** Relative paths are read against the stored cwd. */
  lemma SetCwdResolves(fs: FS, dir: string, path: string)
    requires !IsAbsolute(path)
    ensures Target(SetCwd(fs, dir), path) == Collapse(NormalSegs(dir), DropEmptyAndDot(Split(path, '/')))
  {
    var fs' := SetCwd(fs, dir);
    ResolveRelative(path, fs'.cwd);
    NormalizeSegments(dir);
  }

  /** A top-level name, not yet present, can always be created. */
  lemma CreateTopLevel(fs: FS, name: string, now: nat)
    requires ValidFS(fs) && CanonicalSegment(name)
    requires !Exists(fs, "/" + name)
    ensures CreateDir(fs, "/" + name, now).Ok?
    ensures Exists(CreateDir(fs, "/" + name, now).value, "/" + name)
  {
    var path := "/" + name;
    assert Join([name], "/") == name;
    NormalSegsOfCanonical([name]);
    assert StartsWith(path, "/");
    assert Target(fs, path) == [name] by { NormalizeSegments(path); }
    SiteFacts(fs, path);
    var site := SiteOf(fs, path);
    assert NormalSegs(site.dirPath) == [] && site.base == name;
    CreateAtCases(fs, path, site, now);
    assert [] + [name] == [name];
    ReplaceChildWalk(fs.root, [], fs.root, fs.root.children, name);
    CreateDirAdds(fs, path, now);
  }

  /** One step of the default structure: the directory exists afterwards and nothing is lost. */
  lemma EnsureDirStep(fs: FS, d: string, now: nat)
    requires ValidFS(fs)
    requires |d| > 1 && d[0] == '/' && CanonicalSegment(d[1..])
    ensures EnsureDir(fs, d, now).Ok?
    ensures var fs1 := EnsureDir(fs, d, now).value;
      && ValidFS(fs1) && fs1.cwd == fs.cwd && Exists(fs1, d)
      && forall p :: Exists(fs, p) ==> Exists(fs1, p)
  {
    assert d == "/" + d[1..];
    if !Exists(fs, d) {
      CreateTopLevel(fs, d[1..], now);
      CreateDirValid(fs, d, now);
      forall p | Exists(fs, p) ensures Exists(CreateDir(fs, d, now).value, p) {
        CreateDirKeeps(fs, d, now, p);
      }
    }
  }

  /** Creating top-level directories in turn: all succeed, and everything that existed stays. */
  lemma {:induction false} EnsureDirsOk(fs: FS, dirs: seq<string>, now: nat)
    requires ValidFS(fs)
    requires forall i :: 0 <= i < |dirs| ==> |dirs[i]| > 1 && dirs[i][0] == '/' && CanonicalSegment(dirs[i][1..])
    ensures EnsureDirs(fs, dirs, now).Ok?
    ensures var fs' := EnsureDirs(fs, dirs, now).value;
      && ValidFS(fs') && fs'.cwd == fs.cwd
      && (forall i :: 0 <= i < |dirs| ==> Exists(fs', dirs[i]))
      && (forall p :: Exists(fs, p) ==> Exists(fs', p))
    decreases |dirs|
  {
    if |dirs| > 0 {
      EnsureDirStep(fs, dirs[0], now);
      var fs1 := EnsureDir(fs, dirs[0], now).value;
      EnsureDirsOk(fs1, dirs[1..], now);
      var fs2 := EnsureDirs(fs1, dirs[1..], now).value;
      assert EnsureDirs(fs, dirs, now) == Ok(fs2);
      forall i | 0 <= i < |dirs| ensures Exists(fs2, dirs[i]) {
        if i > 0 { assert dirs[i] == dirs[1..][i - 1]; }
      }
    }
  }

  /** Once every directory exists, creating them again changes nothing. */
  lemma {:induction false} EnsureDirsPresent(fs: FS, dirs: seq<string>, now: nat)
    requires forall i :: 0 <= i < |dirs| ==> Exists(fs, dirs[i])
    ensures EnsureDirs(fs, dirs, now) == Ok(fs)
    decreases |dirs|
  {
    if |dirs| > 0 {
      EnsureDirsPresent(fs, dirs[1..], now);
    }
  }

  lemma DefaultDirectoriesTopLevel()
    ensures forall i :: 0 <= i < |DefaultDirectories| ==>
      |DefaultDirectories[i]| > 1 && DefaultDirectories[i][0] == '/' && CanonicalSegment(DefaultDirectories[i][1..])
  {
    assert DefaultDirectories[0][1..] == "home";
    assert DefaultDirectories[1][1..] == "bin";
    assert DefaultDirectories[2][1..] == "etc";
    assert DefaultDirectories[3][1..] == "tmp";
  }

  lemma HomeNormal()
    ensures Normalize("/home") == "/home"
  {
    assert Join(["home"], "/") == "home";
    NormalSegsOfCanonical(["home"]);
  }

  /** Each default directory exists afterwards, nothing that existed is lost, and cwd is /home. */
  lemma InitializeDefaultStructureEnsures(fs: FS, now: nat)
    requires ValidFS(fs)
    ensures InitializeDefaultStructure(fs, now).Ok?
    ensures var fs' := InitializeDefaultStructure(fs, now).value;
      && ValidFS(fs')
      && fs'.cwd == "/home"
      && (forall i :: 0 <= i < |DefaultDirectories| ==> Exists(fs', DefaultDirectories[i]))
  {
    DefaultDirectoriesTopLevel();
    EnsureDirsOk(fs, DefaultDirectories, now);
    var fs1 := EnsureDirs(fs, DefaultDirectories, now).value;
    var fs' := SetCwd(fs1, "/home");
    HomeNormal();
    forall i | 0 <= i < |DefaultDirectories| ensures Exists(fs', DefaultDirectories[i]) {
      AbsoluteIgnoresCwd(fs1, fs', DefaultDirectories[i]);
    }
  }

  /** Running `initializeDefaultStructure` a second time changes nothing. */
  lemma InitializeDefaultStructureIdempotent(fs: FS, now: nat, later: nat)
    requires ValidFS(fs)
    ensures InitializeDefaultStructure(fs, now).Ok?
    ensures var fs' := InitializeDefaultStructure(fs, now).value;
      InitializeDefaultStructure(fs', later) == Ok(fs')
  {
    InitializeDefaultStructureEnsures(fs, now);
    var fs' := InitializeDefaultStructure(fs, now).value;
    EnsureDirsPresent(fs', DefaultDirectories, later);
  }
}
